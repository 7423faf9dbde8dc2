/** `expr_transform` (at91bootstrap/config/expr.c:714-865) and the two functions that follow it in the menu code:
    `expr_trans_bool` (at91bootstrap/config/expr.c:334-360) and
    `expr_trans_compare` (at91bootstrap/config/expr.c:973-1036). */
module KconfigTransform {
  import opened KconfigExpr
  import opened Wrappers

  // ----- expr_transform -----

  /** Pushing a NOT inwards duplicates it, so a NOT weighs as much as all it covers. */
  function Weight(e: Expr): (w: nat)
    ensures w >= 1
  {
    match e
    case Sym(_) => 1
    case Comp(_, _, _) => 2
    case Not(x) => 2 * Weight(x)
    case Bin(_, l, r) => 1 + Weight(l) + Weight(r)
  }

  /** A comparison of a boolean symbol with a built-in constant is not a comparison at all. */
  function TransformComp(equal: bool, left: Symbol, right: Symbol): Expr {
    if TypeOf(left) != Boolean then Comp(equal, left, right)
    else if right == SymNo then (if equal then Not(Sym(left)) else Sym(left))
    else if right == SymMod then (if equal then Sym(SymNo) else Sym(SymYes))
    else if right == SymYes then (if equal then Sym(left) else Not(Sym(left)))
    else Comp(equal, left, right)
  }

  function Transform(e: Expr): (r: Expr)
    ensures Weight(r) <= Weight(e)
    decreases Weight(e)
  {
    match e
    case Sym(_) => e
    case Comp(equal, left, right) => TransformComp(equal, left, right)
    case Bin(op, l, r) => Bin(op, Transform(l), Transform(r))
    case Not(x) =>
      var x' := Transform(x);
      match x'
      case Not(y) => Transform(y)
      case Comp(equal, left, right) => Comp(!equal, left, right)
      case Bin(op, l, r) => Bin(Dual(op), Transform(Not(l)), Transform(Not(r)))
      case Sym(s) =>
        if s == SymYes then Sym(SymNo)
        else if s == SymMod then Sym(SymMod)
        else if s == SymNo then Sym(SymYes)
        else Not(x')
  }

  /** NOT stands only over symbols other than `y`, `m` and `n`, and no boolean symbol is compared
      with one of those three. */
  predicate Normal(e: Expr) {
    match e
    case Sym(_) => true
    case Not(x) => x.Sym? && x.s !in {SymYes, SymMod, SymNo}
    case Comp(_, left, right) => !(TypeOf(left) == Boolean && right in {SymYes, SymMod, SymNo})
    case Bin(_, l, r) => Normal(l) && Normal(r)
  }

  lemma {:induction false} TransformIsNormal(e: Expr)
    ensures Normal(Transform(e))
    decreases Weight(e)
  {
    match e
    case Sym(_) =>
    case Comp(_, _, _) =>
    case Bin(_, l, r) =>
      TransformIsNormal(l);
      TransformIsNormal(r);
    case Not(x) =>
      TransformIsNormal(x);
      match Transform(x)
      case Not(y) => TransformIsNormal(y);
      case Bin(_, l, r) =>
        TransformIsNormal(Not(l));
        TransformIsNormal(Not(r));
      case _ =>
  }

  lemma {:induction false} TransformFixesNormal(e: Expr)
    requires Normal(e)
    ensures Transform(e) == e
  {
    match e
    case Bin(_, l, r) =>
      TransformFixesNormal(l);
      TransformFixesNormal(r);
    case _ =>
  }

  lemma TransformIsIdempotent(e: Expr)
    ensures Transform(Transform(e)) == Transform(e)
  {
    TransformIsNormal(e);
    TransformFixesNormal(Transform(e));
  }

  lemma TransformCompKeepsValue(equal: bool, left: Symbol, right: Symbol, a: Assignment)
    requires WellTyped(a)
    ensures Value(TransformComp(equal, left, right), a) == Value(Comp(equal, left, right), a)
  {
    assert HoldsAllowedValue(left, a(left)) && HoldsAllowedValue(right, a(right));
    assert HoldsAllowedValue(SymYes, a(SymYes)) && HoldsAllowedValue(SymNo, a(SymNo));
  }

  lemma {:induction false} TransformKeepsValue(e: Expr, a: Assignment)
    requires WellTyped(a)
    ensures Value(Transform(e), a) == Value(e, a)
    decreases Weight(e)
  {
    match e
    case Sym(_) =>
    case Comp(equal, left, right) => TransformCompKeepsValue(equal, left, right, a);
    case Bin(_, l, r) =>
      TransformKeepsValue(l, a);
      TransformKeepsValue(r, a);
    case Not(x) =>
      TransformKeepsValue(x, a);
      match Transform(x)
      case Not(y) => TransformKeepsValue(y, a);
      case Bin(_, l, r) =>
        TransformKeepsValue(Not(l), a);
        TransformKeepsValue(Not(r), a);
      case Sym(s) =>
        assert HoldsAllowedValue(SymYes, a(SymYes)) && HoldsAllowedValue(SymNo, a(SymNo));
        assert HoldsAllowedValue(SymMod, a(SymMod));
      case Comp(_, _, _) =>
  }

  // ----- expr_trans_bool -----

  function TransBool(e: Expr): Expr {
    match e
    case Sym(_) => e
    case Not(x) => Not(TransBool(x))
    case Comp(equal, left, right) =>
      if !equal && TypeOf(left) == Tri && right == SymNo then Sym(left) else e
    case Bin(op, l, r) => Bin(op, TransBool(l), TransBool(r))
  }

  /** No `T != n` over a tristate symbol below a NOT. */
  predicate NoTestBelowNot(e: Expr, below: bool) {
    match e
    case Sym(_) => true
    case Not(x) => NoTestBelowNot(x, true)
    case Comp(equal, left, right) => below ==> !(!equal && TypeOf(left) == Tri && right == SymNo)
    case Bin(_, l, r) => NoTestBelowNot(l, below) && NoTestBelowNot(r, below)
  }

  /** Wherever there is one, the symbol is not `mod`. */
  ghost predicate TestsTwoValuedBelowNot(e: Expr, below: bool, a: Assignment) {
    match e
    case Sym(_) => true
    case Not(x) => TestsTwoValuedBelowNot(x, true, a)
    case Comp(equal, left, right) => below && !equal && TypeOf(left) == Tri && right == SymNo ==> a(left).tri != MOD
    case Bin(_, l, r) => TestsTwoValuedBelowNot(l, below, a) && TestsTwoValuedBelowNot(r, below, a)
  }

  lemma {:induction false} NoTestIsTwoValued(e: Expr, below: bool, a: Assignment)
    requires NoTestBelowNot(e, below)
    ensures TestsTwoValuedBelowNot(e, below, a)
  {
    match e
    case Not(x) => NoTestIsTwoValued(x, true, a);
    case Bin(_, l, r) =>
      NoTestIsTwoValued(l, below, a);
      NoTestIsTwoValued(r, below, a);
    case _ =>
  }

  lemma {:induction false} TransBoolBelowNot(e: Expr, a: Assignment)
    requires WellTyped(a) && TestsTwoValuedBelowNot(e, true, a)
    ensures Value(TransBool(e), a) == Value(e, a)
  {
    match e
    case Sym(_) =>
    case Comp(_, left, _) =>
      assert HoldsAllowedValue(left, a(left)) && HoldsAllowedValue(SymNo, a(SymNo));
    case Not(x) => TransBoolBelowNot(x, a);
    case Bin(_, l, r) =>
      TransBoolBelowNot(l, a);
      TransBoolBelowNot(r, a);
  }

  /** Whether the value is `n` stays the same; `y` may become `m`. */
  lemma {:induction false} TransBoolKeepsNo(e: Expr, a: Assignment)
    requires WellTyped(a) && TestsTwoValuedBelowNot(e, false, a)
    ensures Value(TransBool(e), a) == NO <==> Value(e, a) == NO
    ensures Value(TransBool(e), a) <= Value(e, a)
  {
    match e
    case Sym(_) =>
    case Comp(_, left, _) =>
      assert HoldsAllowedValue(left, a(left)) && HoldsAllowedValue(SymNo, a(SymNo));
    case Not(x) => TransBoolBelowNot(x, a);
    case Bin(_, l, r) =>
      TransBoolKeepsNo(l, a);
      TransBoolKeepsNo(r, a);
  }

  lemma {:induction false} NormalHasNoTestBelowNot(e: Expr)
    requires Normal(e)
    ensures NoTestBelowNot(e, false)
  {
    if e.Bin? {
      NormalHasNoTestBelowNot(e.l);
      NormalHasNoTestBelowNot(e.r);
    }
  }

  /** As the menu code uses it, on the output of `expr_transform`. */
  lemma TransBoolAfterTransform(e: Expr, a: Assignment)
    requires WellTyped(a)
    ensures Value(TransBool(Transform(e)), a) == NO <==> Value(e, a) == NO
  {
    TransformIsNormal(e);
    NormalHasNoTestBelowNot(Transform(e));
    NoTestIsTwoValued(Transform(e), false, a);
    TransBoolKeepsNo(Transform(e), a);
    TransformKeepsValue(e, a);
  }

  /** For a single test the condition is exact: with T at `m`, `!(T != n)` is `n` while `!T` is `m`. */
  lemma TransBoolBelowNotExactlyWhen(a: Assignment, t: Symbol)
    requires WellTyped(a) && TypeOf(t) == Tri
    ensures var e := Not(Comp(false, t, SymNo));
      (Value(TransBool(e), a) == NO <==> Value(e, a) == NO) <==> a(t).tri != MOD
  {
    assert HoldsAllowedValue(t, a(t)) && HoldsAllowedValue(SymNo, a(SymNo));
  }

  // ----- expr_trans_compare -----

  /** `expr_trans_compare(e, equal ? E_EQUAL : E_UNEQUAL, sym)` for `sym` one of `y` and `n`. */
  function TransCompare(e: Expr, equal: bool, sym: Symbol): Expr
    requires sym == SymYes || sym == SymNo
  {
    match e
    case Bin(op, l, r) =>
      var both := Bin(if sym == SymYes then op else Dual(op), TransCompare(l, true, sym), TransCompare(r, true, sym));
      if equal then both else Not(both)
    case Not(x) => TransCompare(x, !equal, sym)
    case Comp(_, _, _) => if equal == (sym == SymYes) then e else Not(e)
    case Sym(s) => Comp(equal, s, sym)
  }

  /** The argument may be NULL, which stands for `y`. */
  function TransCompareOrNull(e: Option<Expr>, equal: bool, sym: Symbol): Expr
    requires sym == SymYes || sym == SymNo
  {
    match e
    case None => if equal then Sym(sym) else Not(Sym(sym))
    case Some(x) => TransCompare(x, equal, sym)
  }

  /** A symbol standing alone is boolean, tristate or one of `y`, `m`, `n`. */
  predicate LogicalSymbol(s: Symbol) {
    s in {SymYes, SymMod, SymNo} || TypeOf(s) in {Boolean, Tri}
  }

  predicate LogicalSymbols(e: Expr) {
    match e
    case Sym(s) => LogicalSymbol(s)
    case Not(x) => LogicalSymbols(x)
    case Comp(_, _, _) => true
    case Bin(_, l, r) => LogicalSymbols(l) && LogicalSymbols(r)
  }

  /** The value when every symbol holding `mod` is read as `y` (`up`) or as `n`. */
  function Rounded(e: Expr, up: bool, a: Assignment): (t: Tristate)
    ensures t != MOD
  {
    match e
    case Sym(s) => Truth(if up then a(s).tri != NO else a(s).tri == YES)
    case Not(x) => 2 - Rounded(x, up, a)
    case Comp(_, _, _) => Value(e, a)
    case Bin(op, l, r) => ApplyOp(op, Rounded(l, up, a), Rounded(r, up, a))
  }

  /** Every NOT covers a part that is not `mod`. */
  ghost predicate NegatesTwoValued(e: Expr, a: Assignment) {
    match e
    case Sym(_) => true
    case Not(x) => Value(x, a) != MOD && NegatesTwoValued(x, a)
    case Comp(_, _, _) => true
    case Bin(_, l, r) => NegatesTwoValued(l, a) && NegatesTwoValued(r, a)
  }

  /** What the rewriter computes, for every input: against `y` the expression with `mod` rounded
      down everywhere, against `n` (negated) the expression with `mod` rounded up everywhere. */
  lemma {:induction false} TransCompareRounds(e: Expr, equal: bool, sym: Symbol, a: Assignment)
    requires WellTyped(a) && LogicalSymbols(e)
    requires sym == SymYes || sym == SymNo
    ensures Value(TransCompare(e, equal, sym), a) == Truth((Rounded(e, sym == SymNo, a) == a(sym).tri) == equal)
  {
    assert HoldsAllowedValue(SymYes, a(SymYes)) && HoldsAllowedValue(SymNo, a(SymNo));
    match e
    case Sym(s) => assert HoldsAllowedValue(s, a(s)) && HoldsAllowedValue(SymMod, a(SymMod));
    case Not(x) => TransCompareRounds(x, !equal, sym, a);
    case Comp(_, _, _) =>
    case Bin(_, l, r) =>
      TransCompareRounds(l, true, sym, a);
      TransCompareRounds(r, true, sym, a);
  }

  /** Rounding is harmless when every negated part is two-valued. */
  lemma {:induction false} RoundedIsExact(e: Expr, up: bool, a: Assignment)
    requires NegatesTwoValued(e, a)
    ensures Rounded(e, up, a) == Truth(if up then Value(e, a) != NO else Value(e, a) == YES)
  {
    match e
    case Not(x) => RoundedIsExact(x, up, a);
    case Bin(_, l, r) =>
      RoundedIsExact(l, up, a);
      RoundedIsExact(r, up, a);
    case _ =>
  }

  lemma TransCompareCompares(e: Expr, equal: bool, sym: Symbol, a: Assignment)
    requires WellTyped(a) && LogicalSymbols(e) && NegatesTwoValued(e, a)
    requires sym == SymYes || sym == SymNo
    ensures Value(TransCompare(e, equal, sym), a) == Truth((Value(e, a) == a(sym).tri) == equal)
  {
    assert HoldsAllowedValue(SymYes, a(SymYes)) && HoldsAllowedValue(SymNo, a(SymNo));
    TransCompareRounds(e, equal, sym, a);
    RoundedIsExact(e, sym == SymNo, a);
  }

  /** In general it is right exactly if rounding does not decide between equal and unequal. */
  lemma TransCompareIsRightExactlyWhen(e: Expr, equal: bool, sym: Symbol, a: Assignment)
    requires WellTyped(a) && LogicalSymbols(e)
    requires sym == SymYes || sym == SymNo
    ensures Value(TransCompare(e, equal, sym), a) == Truth((Value(e, a) == a(sym).tri) == equal)
       <==> (Rounded(e, sym == SymNo, a) == a(sym).tri <==> Value(e, a) == a(sym).tri)
  {
    TransCompareRounds(e, equal, sym, a);
  }

  /** A negated symbol at `mod` is always compared wrongly, one that is negated twice never. */
  lemma TransCompareOfNots(s: Symbol, equal: bool, sym: Symbol, a: Assignment)
    requires WellTyped(a) && LogicalSymbol(s)
    requires sym == SymYes || sym == SymNo
    ensures Value(TransCompare(Not(Sym(s)), equal, sym), a) == Truth((Value(Not(Sym(s)), a) == a(sym).tri) == equal)
       <==> a(s).tri != MOD
    ensures Value(TransCompare(Not(Not(Sym(s))), equal, sym), a) ==
      Truth((Value(Not(Not(Sym(s))), a) == a(sym).tri) == equal)
  {
    TransCompareIsRightExactlyWhen(Not(Sym(s)), equal, sym, a);
    TransCompareIsRightExactlyWhen(Not(Not(Sym(s))), equal, sym, a);
    assert HoldsAllowedValue(SymYes, a(SymYes)) && HoldsAllowedValue(SymNo, a(SymNo));
    assert HoldsAllowedValue(s, a(s)) && HoldsAllowedValue(SymMod, a(SymMod));
  }

  // ----- expr_contains_symbol, expr_depends_symbol (at91bootstrap/config/expr.c:867-917) -----

  predicate ContainsSymbol(e: Expr, s: Symbol) {
    match e
    case Sym(t) => t == s
    case Not(x) => ContainsSymbol(x, s)
    case Comp(_, left, right) => left == s || right == s
    case Bin(_, l, r) => ContainsSymbol(l, s) || ContainsSymbol(r, s)
  }

  predicate DependsOnSymbol(e: Expr, s: Symbol) {
    match e
    case Bin(AND, l, r) => DependsOnSymbol(l, s) || DependsOnSymbol(r, s)
    case Sym(t) => t == s
    case Comp(equal, left, right) =>
      left == s && (if equal then right == SymYes || right == SymMod else right == SymNo)
    case _ => false
  }

  /** An expression that does not mention a symbol does not feel it change. */
  lemma {:induction false} UnmentionedSymbolIsIrrelevant(e: Expr, s: Symbol, a: Assignment, b: Assignment)
    requires !ContainsSymbol(e, s)
    requires forall t: Symbol | t != s :: a(t) == b(t)
    ensures Value(e, a) == Value(e, b)
  {
    match e
    case Not(x) => UnmentionedSymbolIsIrrelevant(x, s, a, b);
    case Bin(_, l, r) =>
      UnmentionedSymbolIsIrrelevant(l, s, a, b);
      UnmentionedSymbolIsIrrelevant(r, s, a, b);
    case _ =>
  }

  /** "Depends on" means implies: the expression cannot be satisfied while the symbol is `n`. */
  lemma {:induction false} DependsMeansImplies(e: Expr, s: Symbol, a: Assignment)
    requires WellTyped(a) && DependsOnSymbol(e, s) && TypeOf(s) in {Boolean, Tri}
    requires Value(e, a) != NO
    ensures a(s).tri != NO
  {
    match e
    case Bin(AND, l, r) =>
      if DependsOnSymbol(l, s) {
        DependsMeansImplies(l, s, a);
      } else {
        DependsMeansImplies(r, s, a);
      }
    case Comp(_, _, right) =>
      assert HoldsAllowedValue(s, a(s)) && HoldsAllowedValue(right, a(right));
    case Sym(_) =>
  }
}
