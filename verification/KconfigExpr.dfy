/** Kconfig dependency expressions (at91bootstrap/config/expr.h, expr.c): the tree, the three-valued
    meaning that `expr_calc_value` gives it, and the operand lists ("spines") that the
    simplifiers walk.

    A C expression is a tree of heap nodes that nobody else points to, so it is modelled by its
    value; a function that rewrites a tree through a `struct expr **` returns the new tree. */
module KconfigExpr {
  import opened Wrappers

  /** `no < mod < yes` (at91bootstrap/config/expr.h:29-31). */
  type Tristate = t: int | 0 <= t <= 2

  const NO: Tristate := 0
  const MOD: Tristate := 1
  const YES: Tristate := 2

  datatype SymbolType = Unknown | Boolean | Tri | Int | Hex | Str | Other

  /** `symbol_yes`, `symbol_mod` and `symbol_no` are the three built-in constants. `Quoted` is any
      other symbol carrying SYMBOL_CONST; it is identified by its text. `Named` is a config entry. */
  datatype AnySymbol =
    | SymYes
    | SymMod
    | SymNo
    | Quoted(text: string)
    | Named(id: nat, typ: SymbolType)

  /** `sym_lookup` hands out the built-in constants for the texts "y", "m" and "n", so no other
      constant carries one of them. */
  type Symbol = s: AnySymbol | s.Quoted? ==> s.text !in {"y", "m", "n"} witness SymYes

  datatype Op = AND | OR

  datatype Expr =
    | Sym(s: Symbol)
    | Not(e: Expr)
    | Comp(equal: bool, left: Symbol, right: Symbol)
    | Bin(op: Op, l: Expr, r: Expr)

  // ----- meaning -----

  datatype SymVal = SymVal(tri: Tristate, str: string)

  /** What every symbol currently holds: `curr.tri`, and the text `sym_get_string_value` returns. */
  type Assignment = Symbol -> SymVal

  function TriText(t: Tristate): string {
    if t == YES then "y" else if t == MOD then "m" else "n"
  }

  function TypeOf(s: Symbol): SymbolType {
    if s.Named? then s.typ else Unknown
  }

  predicate IsConst(s: Symbol) {
    !s.Named?
  }

  /** Constants hold their own text; a boolean symbol is never `mod`; the text of a boolean or
      tristate symbol spells its value; nothing else has a value other than `no`. */
  ghost predicate HoldsAllowedValue(s: Symbol, v: SymVal) {
    match s
    case SymYes => v == SymVal(YES, "y")
    case SymMod => v == SymVal(MOD, "m")
    case SymNo => v == SymVal(NO, "n")
    case Quoted(text) => v == SymVal(NO, text)
    case Named(_, Boolean) => v.tri != MOD && v.str == TriText(v.tri)
    case Named(_, Tri) => v.str == TriText(v.tri)
    case Named(_, _) => v.tri == NO
  }

  ghost predicate WellTyped(a: Assignment) {
    forall s: Symbol :: HoldsAllowedValue(s, a(s))
  }

  function ApplyOp(op: Op, x: Tristate, y: Tristate): Tristate {
    match op
    case AND => if x < y then x else y
    case OR => if x > y then x else y
  }

  function Truth(b: bool): Tristate {
    if b then YES else NO
  }

  function Value(e: Expr, a: Assignment): Tristate {
    match e
    case Sym(s) => a(s).tri
    case Not(x) => 2 - Value(x, a)
    case Comp(equal, left, right) => Truth((a(left).str == a(right).str) == equal)
    case Bin(op, l, r) => ApplyOp(op, Value(l, a), Value(r, a))
  }

  /** A condition that is not there always holds. */
  function ValueOrYes(e: Option<Expr>, a: Assignment): Tristate {
    if e.Some? then Value(e.value, a) else YES
  }

  /** The neutral constant of an operator, as a symbol and as an expression. */
  function UnitSymbol(op: Op): Symbol {
    if op == AND then SymYes else SymNo
  }

  function Unit(op: Op): Expr {
    Sym(UnitSymbol(op))
  }

  function Dual(op: Op): Op {
    if op == AND then OR else AND
  }

  function UnitValue(op: Op): Tristate {
    if op == AND then YES else NO
  }

  predicate IsBin(op: Op, e: Expr) {
    e.Bin? && e.op == op
  }

  predicate IsYes(e: Expr) {
    e == Sym(SymYes)
  }

  predicate IsNo(e: Expr) {
    e == Sym(SymNo)
  }

  /** The same value in every well-typed assignment. */
  ghost predicate SameValue(e: Expr, f: Expr) {
    forall a: Assignment | WellTyped(a) :: Value(e, a) == Value(f, a)
  }

  /** `from` may have become `to`: a definite value stays, and only `mod` may turn into something
      else. Unlike "equal unless `mod`" read as a one-off test, this survives AND, OR and NOT. */
  predicate Settles(from: Tristate, to: Tristate) {
    from == MOD || from == to
  }

  // ----- sizes -----

  function Nodes(e: Expr): nat {
    match e
    case Sym(_) => 1
    case Not(x) => 1 + Nodes(x)
    case Comp(_, _, _) => 1
    case Bin(_, l, r) => 1 + Nodes(l) + Nodes(r)
  }

  /** Symbols and comparisons count as leaves; NOT adds nothing. */
  function Leaves(e: Expr): (n: nat)
    ensures n >= 1
  {
    match e
    case Sym(_) => 1
    case Not(x) => Leaves(x)
    case Comp(_, _, _) => 1
    case Bin(_, l, r) => Leaves(l) + Leaves(r)
  }

  // ----- spines: the operands reached from a node through nodes of one operator -----

  function Operands(op: Op, e: Expr): (xs: seq<Expr>)
    ensures |xs| >= 1
    ensures IsBin(op, e) ==> |xs| >= 2
    ensures forall k | 0 <= k < |xs| :: !IsBin(op, xs[k])
  {
    if IsBin(op, e) then Operands(op, e.l) + Operands(op, e.r) else [e]
  }

  /** The tree shaped like the spine of `e` with `xs` for operands. */
  function Fill(op: Op, e: Expr, xs: seq<Expr>): (f: Expr)
    requires |xs| == |Operands(op, e)|
    ensures IsBin(op, e) ==> IsBin(op, f)
  {
    if IsBin(op, e) then
      var n := |Operands(op, e.l)|;
      Bin(op, Fill(op, e.l, xs[..n]), Fill(op, e.r, xs[n..]))
    else
      xs[0]
  }

  function SpineLeaves(xs: seq<Expr>): nat {
    if xs == [] then 0 else Leaves(xs[0]) + SpineLeaves(xs[1..])
  }

  function SpineValue(op: Op, xs: seq<Expr>, a: Assignment): Tristate {
    if xs == [] then UnitValue(op) else ApplyOp(op, Value(xs[0], a), SpineValue(op, xs[1..], a))
  }

  lemma {:induction false} SpineLeavesConcat(xs: seq<Expr>, ys: seq<Expr>)
    ensures SpineLeaves(xs + ys) == SpineLeaves(xs) + SpineLeaves(ys)
  {
    if xs == [] {
      assert xs + ys == ys;
    } else {
      assert (xs + ys)[1..] == xs[1..] + ys;
      SpineLeavesConcat(xs[1..], ys);
    }
  }

  lemma {:induction false} SpineLeavesUpdate(xs: seq<Expr>, i: nat, e: Expr)
    requires i < |xs|
    ensures SpineLeaves(xs[i := e]) == SpineLeaves(xs) - Leaves(xs[i]) + Leaves(e)
  {
    if i > 0 {
      assert xs[i := e][1..] == xs[1..][i - 1 := e];
      SpineLeavesUpdate(xs[1..], i - 1, e);
    } else {
      assert xs[i := e][1..] == xs[1..];
    }
  }

  lemma {:induction false} SpineLeavesAtLeast(xs: seq<Expr>, i: nat)
    requires i < |xs|
    ensures Leaves(xs[i]) + |xs| - 1 <= SpineLeaves(xs)
  {
    if i > 0 {
      SpineLeavesAtLeast(xs[1..], i - 1);
    } else if |xs| > 1 {
      SpineLeavesAtLeast(xs[1..], 0);
    }
  }

  lemma {:induction false} FillLeaves(op: Op, e: Expr, xs: seq<Expr>)
    requires |xs| == |Operands(op, e)|
    ensures Leaves(Fill(op, e, xs)) == SpineLeaves(xs)
  {
    if IsBin(op, e) {
      var n := |Operands(op, e.l)|;
      FillLeaves(op, e.l, xs[..n]);
      FillLeaves(op, e.r, xs[n..]);
      SpineLeavesConcat(xs[..n], xs[n..]);
      assert xs[..n] + xs[n..] == xs;
    } else {
      assert xs == [xs[0]];
    }
  }

  lemma {:induction false} FillOperands(op: Op, e: Expr)
    ensures Fill(op, e, Operands(op, e)) == e
    ensures SpineLeaves(Operands(op, e)) == Leaves(e)
  {
    if IsBin(op, e) {
      FillOperands(op, e.l);
      FillOperands(op, e.r);
      var ls, rs := Operands(op, e.l), Operands(op, e.r);
      assert (ls + rs)[..|ls|] == ls && (ls + rs)[|ls|..] == rs;
      SpineLeavesConcat(ls, rs);
    } else {
      assert SpineLeaves([e]) == Leaves(e) + SpineLeaves([]);
    }
  }

  lemma {:induction false} OperandsFill(op: Op, e: Expr, xs: seq<Expr>)
    requires |xs| == |Operands(op, e)|
    requires forall k | 0 <= k < |xs| :: !IsBin(op, xs[k])
    ensures Operands(op, Fill(op, e, xs)) == xs
  {
    if IsBin(op, e) {
      var n := |Operands(op, e.l)|;
      OperandsFill(op, e.l, xs[..n]);
      OperandsFill(op, e.r, xs[n..]);
      assert xs[..n] + xs[n..] == xs;
    }
  }

  lemma {:induction false} SpineValueConcat(op: Op, xs: seq<Expr>, ys: seq<Expr>, a: Assignment)
    ensures SpineValue(op, xs + ys, a) == ApplyOp(op, SpineValue(op, xs, a), SpineValue(op, ys, a))
  {
    if xs == [] {
      assert xs + ys == ys;
    } else {
      assert (xs + ys)[1..] == xs[1..] + ys;
      SpineValueConcat(op, xs[1..], ys, a);
    }
  }

  lemma {:induction false} FillValue(op: Op, e: Expr, xs: seq<Expr>, a: Assignment)
    requires |xs| == |Operands(op, e)|
    ensures Value(Fill(op, e, xs), a) == SpineValue(op, xs, a)
  {
    if IsBin(op, e) {
      var n := |Operands(op, e.l)|;
      FillValue(op, e.l, xs[..n], a);
      FillValue(op, e.r, xs[n..], a);
      SpineValueConcat(op, xs[..n], xs[n..], a);
      assert xs[..n] + xs[n..] == xs;
    } else {
      assert xs == [xs[0]];
    }
  }

  lemma SpineValueOfOperands(op: Op, e: Expr, a: Assignment)
    ensures SpineValue(op, Operands(op, e), a) == Value(e, a)
  {
    FillOperands(op, e);
    FillValue(op, e, Operands(op, e), a);
  }

  /** One operand can be split off the rest of its spine. */
  lemma {:induction false} SpineValueSplit(op: Op, xs: seq<Expr>, i: nat, a: Assignment)
    requires i < |xs| && WellTyped(a)
    ensures SpineValue(op, xs, a) == ApplyOp(op, Value(xs[i], a), SpineValue(op, xs[i := Unit(op)], a))
  {
    assert HoldsAllowedValue(UnitSymbol(op), a(UnitSymbol(op)));
    if i > 0 {
      assert xs[i := Unit(op)][1..] == xs[1..][i - 1 := Unit(op)];
      SpineValueSplit(op, xs[1..], i - 1, a);
    } else {
      assert xs[i := Unit(op)][1..] == xs[1..];
    }
  }

  /** Replacing operand `i` by the neutral constant and operand `j` by the joint value of both
      leaves the value of the spine as it was. */
  lemma SpineValueJoin(op: Op, xs: seq<Expr>, i: nat, j: nat, t: Expr, a: Assignment)
    requires i < |xs| && j < |xs| && i != j && WellTyped(a)
    requires Value(t, a) == ApplyOp(op, Value(xs[i], a), Value(xs[j], a))
    ensures SpineValue(op, xs[i := Unit(op)][j := t], a) == SpineValue(op, xs, a)
  {
    var u := Unit(op);
    SpineValueSplit(op, xs, i, a);
    SpineValueSplit(op, xs[i := u], j, a);
    var ys := xs[i := u][j := t];
    SpineValueSplit(op, ys, j, a);
    assert ys[j := u] == xs[i := u][j := u];
  }

  /** A spine settles when one of its operands does. */
  lemma SpineValueSettles(op: Op, xs: seq<Expr>, i: nat, e: Expr, a: Assignment)
    requires i < |xs| && WellTyped(a)
    requires Settles(Value(xs[i], a), Value(e, a))
    ensures Settles(SpineValue(op, xs, a), SpineValue(op, xs[i := e], a))
    ensures Value(xs[i], a) == Value(e, a) ==> SpineValue(op, xs, a) == SpineValue(op, xs[i := e], a)
  {
    SpineValueSplit(op, xs, i, a);
    SpineValueSplit(op, xs[i := e], i, a);
    assert xs[i := e][i := Unit(op)] == xs[i := Unit(op)];
  }

  // ----- expr_eliminate_yn (at91bootstrap/config/expr.c:247-327) -----

  /** One AND or OR node whose two sides have been cleaned already. */
  function FoldConstants(op: Op, l: Expr, r: Expr): Expr {
    match op
    case AND =>
      if IsNo(l) then Sym(SymNo)
      else if IsYes(l) then r
      else if IsNo(r) then Sym(SymNo)
      else if IsYes(r) then l
      else Bin(AND, l, r)
    case OR =>
      if IsNo(l) then r
      else if IsYes(l) then Sym(SymYes)
      else if IsNo(r) then l
      else if IsYes(r) then Sym(SymYes)
      else Bin(OR, l, r)
  }

  function EliminateYN(e: Expr): (r: Expr)
    ensures Nodes(r) <= Nodes(e)
    ensures Leaves(r) <= Leaves(e)
  {
    if e.Bin? then FoldConstants(e.op, EliminateYN(e.l), EliminateYN(e.r)) else e
  }

  lemma {:induction false} EliminateYNKeepsValue(e: Expr, a: Assignment)
    requires WellTyped(a)
    ensures Value(EliminateYN(e), a) == Value(e, a)
  {
    assert HoldsAllowedValue(SymYes, a(SymYes)) && HoldsAllowedValue(SymNo, a(SymNo));
    if e.Bin? {
      EliminateYNKeepsValue(e.l, a);
      EliminateYNKeepsValue(e.r, a);
    }
  }

  /** Some AND or OR node has a constant `y` or `n` for a side. */
  predicate HasFoldable(e: Expr) {
    e.Bin? && (IsYes(e.l) || IsNo(e.l) || IsYes(e.r) || IsNo(e.r) || HasFoldable(e.l) || HasFoldable(e.r))
  }

  lemma FoldingShrinks(op: Op, l: Expr, r: Expr)
    ensures if IsYes(l) || IsNo(l) || IsYes(r) || IsNo(r) then Leaves(FoldConstants(op, l, r)) < Leaves(l) + Leaves(r)
      else FoldConstants(op, l, r) == Bin(op, l, r)
    ensures !HasFoldable(l) && !HasFoldable(r) ==> !HasFoldable(FoldConstants(op, l, r))
  {
  }

  /** Folding removes at least one leaf whenever there is anything to fold, and then leaves
      nothing to fold. */
  lemma {:induction false} EliminateYNShrinks(e: Expr)
    ensures HasFoldable(e) ==> Leaves(EliminateYN(e)) < Leaves(e)
    ensures !HasFoldable(e) ==> EliminateYN(e) == e
    ensures !HasFoldable(EliminateYN(e))
  {
    if e.Bin? {
      EliminateYNShrinks(e.l);
      EliminateYNShrinks(e.r);
      FoldingShrinks(e.op, EliminateYN(e.l), EliminateYN(e.r));
    }
  }
}
