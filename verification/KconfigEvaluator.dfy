/** `sym_calc_value` and the functions around it as they run (at91bootstrap/config/symbol.c:117-223, 289-419;
    at91bootstrap/config/expr.c:1038-1078), proved against the equations in KconfigSymbols.

    The source stores the result in each symbol and marks it SYMBOL_VALID before it has been worked
    out, so that a symbol asked for again while it is being computed is not computed twice.
    Expressions are evaluated by asking for the symbols in them. Here the table is a class whose
    fields hold what the source keeps in all the symbols together. */
module KconfigEvaluator {
  import opened KconfigExpr
  import opened KconfigSymbols
  import opened Wrappers

  /** The `struct symbol` contents by symbol; a symbol never touched is all zeroes. */
  type Store = map<Symbol, Entry>

  function At(m: Store, s: Symbol): Entry {
    if s in m then m[s] else Entry(NO, NO, NO, "", false)
  }

  /** Nothing recorded about the symbols in `ss` differs. */
  ghost predicate KeptOn(ss: set<Symbol>, m: Store, n: Store) {
    forall u | u in ss :: At(n, u) == At(m, u)
  }

  predicate HasEquation(s: Symbol) {
    s.Named? && s.typ != Unknown && s.typ != Other
  }

  /** Constants and symbols without a type are never given a visibility. */
  predicate Plausible(s: Symbol, e: Entry) {
    !HasEquation(s) ==> e.visible == NO && e.revTri == NO && !e.write
  }

  /** Every symbol marked valid holds its entry, except those still being worked out. */
  ghost predicate Consistent(entry: Symbol -> Entry, valid: set<Symbol>, m: Store, busy: set<Symbol>) {
    busy <= valid && {SymYes, SymMod, SymNo} <= valid - busy &&
    (forall s | s in valid && s !in busy :: At(m, s) == entry(s)) &&
    (forall s | s in m :: Plausible(s, m[s]))
  }

  /** Marks the symbol whose equation a proof step is about: the two facts below are used for that
      symbol only. */
  ghost predicate About(s: Symbol) {
    true
  }

  /** The entries are what the equations say. */
  ghost predicate Solved(T: Table, sol: Assignment, entry: Symbol -> Entry) {
    forall s: Symbol {:trigger About(s)} :: About(s) && entry(s) == Equation(T, s, sol)
  }

  ghost predicate Shown(sol: Assignment, entry: Symbol -> Entry) {
    forall s: Symbol {:trigger sol(s)} ::
      sol(s) == Seen(s, entry(s)) && entry(s).text == RawText(s, sol(s))
  }

  /** Everything being worked out ranks at least `r`. */
  ghost predicate BusyAbove(rank: Symbol -> nat, busy: set<Symbol>, r: nat) {
    forall b | b in busy :: r <= rank(b)
  }

  ghost predicate AllBelow(rank: Symbol -> nat, ss: seq<Symbol>, r: nat) {
    forall t | t in ss :: rank(t) < r
  }

  /** Conditions are looked at, except for those of a select. */
  lemma ConditionBelow(rank: Symbol -> nat, props: seq<Property>, p: Property, r: nat)
    requires p in props && !p.Select? && AllBelow(rank, PropsSymbols(props), r)
    ensures AllBelow(rank, OptSymbols(p.visible), r)
  {
    MemberSymbols(props, p);
    assert forall t | t in OptSymbols(p.visible) :: t in PropSymbols(p);
  }

  class SymbolTable {
    const T: Table
    /** How deep the dependencies of a symbol go, the solution, and the entries that show it. */
    ghost const rank: Symbol -> nat
    ghost const sol: Assignment
    ghost const entry: Symbol -> Entry
    var valid: set<Symbol>       // SYMBOL_VALID
    var entries: Store

    ghost predicate Inv(busy: set<Symbol>)
      reads this
    {
      Ranked(T, rank) && Solved(T, sol, entry) && Shown(sol, entry) && Consistent(entry, valid, entries, busy)
    }

    /** Only the three built-in constants start out valid. */
    constructor (table: Table, ghost r: Symbol -> nat)
      requires Ranked(table, r)
      ensures T == table && rank == r && Inv({}) && sol == Solution(table, r)
      ensures valid == {SymYes, SymMod, SymNo}
    {
      T := table;
      rank := r;
      sol := Solution(table, r);
      entry := (s: Symbol) => Spec(table, r, s);
      valid := {SymYes, SymMod, SymNo};
      entries := map[
        SymYes := Entry(NO, NO, YES, "y", false),
        SymMod := Entry(NO, NO, MOD, "m", false),
        SymNo := Entry(NO, NO, NO, "n", false)];
      new;
      forall s: Symbol
        ensures entry(s) == Equation(T, s, sol)
      {
        SpecIsEquation(T, rank, s);
      }
    }

    /** `sym_clear_all_valid`, the constants excepted. */
    method ClearAllValid()
      requires Inv({})
      modifies this
      ensures Inv({}) && valid == {SymYes, SymMod, SymNo}
    {
      valid := {SymYes, SymMod, SymNo};
    }

    /** `sym_get_string_value` */
    function StringValue(s: Symbol): string
      reads this
    {
      if IsLogical(s) then TriText(At(entries, s).tri) else At(entries, s).text
    }

    /** `expr_calc_value` */
    method CalcExpr(e: Expr, ghost busy: set<Symbol>, ghost r: nat) returns (v: Tristate)
      requires Inv(busy) && BusyAbove(rank, busy, r) && AllBelow(rank, ExprSymbols(e), r)
      modifies this
      ensures Inv(busy) && old(valid) <= valid && KeptOn(old(valid), old(entries), entries)
      ensures v == Value(e, sol)
      decreases r, 0, Nodes(e)
    {
      match e
      case Sym(s) =>
        assert s in ExprSymbols(e);
        CalcValue(s, busy);
        v := At(entries, s).tri;
      case Not(x) =>
        var val1 := CalcExpr(x, busy, r);
        v := 2 - val1;
      case Comp(equal, left, right) =>
        assert left in ExprSymbols(e) && right in ExprSymbols(e);
        CalcValue(left, busy);
        CalcValue(right, busy);
        var str1 := StringValue(left);
        var str2 := StringValue(right);
        v := Truth((str1 == str2) == equal);
      case Bin(op, x, y) =>
        var val1 := CalcExpr(x, busy, r);
        var val2 := CalcExpr(y, busy, r);
        v := ApplyOp(op, val1, val2);
    }

    /** `expr_calc_value` of a condition that may be NULL. */
    method CalcCondition(e: Option<Expr>, ghost busy: set<Symbol>, ghost r: nat) returns (v: Tristate)
      requires Inv(busy) && BusyAbove(rank, busy, r) && AllBelow(rank, OptSymbols(e), r)
      modifies this
      ensures Inv(busy) && old(valid) <= valid && KeptOn(old(valid), old(entries), entries)
      ensures v == ValueOrYes(e, sol)
      decreases r, 1
    {
      if e.None? {
        v := YES;
      } else {
        v := CalcExpr(e.value, busy, r);
      }
    }

    /** `sym_get_default_prop`, together with the `visible.tri` it leaves in the property. */
    method GetDefaultProp(props: seq<Property>, ghost busy: set<Symbol>, ghost r: nat)
      returns (d: Option<Property>, tri: Tristate)
      requires Inv(busy) && BusyAbove(rank, busy, r) && AllBelow(rank, PropsSymbols(props), r)
      modifies this
      ensures Inv(busy) && old(valid) <= valid && KeptOn(old(valid), old(entries), entries)
      ensures d == FirstDefault(props, sol)
      ensures d.Some? ==> tri == ValueOrYes(d.value.visible, sol)
      decreases r, 2
    {
      d, tri := None, NO;
      var i := 0;
      while i < |props|
        invariant i <= |props|
        invariant Inv(busy) && old(valid) <= valid && KeptOn(old(valid), old(entries), entries)
        invariant FirstDefault(props, sol) == FirstDefault(props[i..], sol)
      {
        if props[i].Default? {
          ConditionBelow(rank, props, props[i], r);
          tri := CalcCondition(props[i].visible, busy, r);
          if tri != NO {
            d := Some(props[i]);
            return;
          }
        }
        i := i + 1;
      }
    }

    /** `sym_get_range_prop` */
    method GetRangeProp(props: seq<Property>, ghost busy: set<Symbol>, ghost r: nat) returns (d: Option<Property>)
      requires Inv(busy) && BusyAbove(rank, busy, r) && AllBelow(rank, PropsSymbols(props), r)
      modifies this
      ensures Inv(busy) && old(valid) <= valid && KeptOn(old(valid), old(entries), entries)
      ensures d == FirstRange(props, sol)
      decreases r, 2
    {
      d := None;
      var i := 0;
      while i < |props|
        invariant i <= |props|
        invariant Inv(busy) && old(valid) <= valid && KeptOn(old(valid), old(entries), entries)
        invariant FirstRange(props, sol) == FirstRange(props[i..], sol)
      {
        if props[i].Range? {
          ConditionBelow(rank, props, props[i], r);
          var tri := CalcCondition(props[i].visible, busy, r);
          if tri != NO {
            d := Some(props[i]);
            return;
          }
        }
        i := i + 1;
      }
    }

    /** `sym_get_range_val` */
    method GetRangeVal(s: Symbol, base: int, ghost busy: set<Symbol>, ghost r: nat) returns (n: int)
      requires Inv(busy) && BusyAbove(rank, busy, r) && rank(s) < r
      modifies this
      ensures Inv(busy) && old(valid) <= valid && KeptOn(old(valid), old(entries), entries)
      ensures n == RangeValue(T, s, base, sol)
      decreases r, 2
    {
      CalcValue(s, busy);
      n := T.strtol(At(entries, s).text, Base(s, base));
    }

    /** Writes a symbol that is being worked out. */
    method Store(s: Symbol, e: Entry, ghost busy: set<Symbol>)
      requires Inv(busy) && s in busy && Plausible(s, e)
      modifies this`entries
      ensures Inv(busy) && KeptOn(valid - {s}, old(entries), entries) && At(entries, s) == e
    {
      entries := entries[s := e];
    }

    /** `sym_validate_range`: may replace `curr.val` of `s`. */
    method ValidateRange(s: Symbol, ghost busy: set<Symbol>)
      requires Inv(busy) && s in busy && BusyAbove(rank, busy, rank(s)) && HasEquation(s)
      modifies this
      ensures Inv(busy) && old(valid) <= valid && KeptOn(old(valid) - {s}, old(entries), entries)
      ensures At(entries, s) == old(At(entries, s)).(
        text := Clamp(T, s, old(At(entries, s)).text, FirstRange(T.defs(s).props, sol), sol))
      decreases rank(s), 3
    {
      if TypeOf(s) != Int && TypeOf(s) != Hex {
        return;
      }
      var props := T.defs(s).props;
      assert forall t | t in PropsSymbols(props) :: t in Refs(T, s);
      var range := GetRangeProp(props, busy, rank(s));
      FirstIsMember(props, sol);
      if range.None? {
        return;
      }
      MemberSymbols(props, range.value);
      assert range.value.low in PropSymbols(range.value) && range.value.high in PropSymbols(range.value);
      var base := Base(s, 10);
      var val := T.strtol(At(entries, s).text, base);
      var val2 := GetRangeVal(range.value.low, base, busy, rank(s));
      if val >= val2 {
        val2 := GetRangeVal(range.value.high, base, busy, rank(s));
        if val <= val2 {
          return;
        }
      }
      Store(s, At(entries, s).(text := Format(T, s, val2)), busy);
    }

    /** `sym_calc_visibility` */
    method CalcVisibility(s: Symbol, ghost busy: set<Symbol>)
      requires Inv(busy) && s in busy && BusyAbove(rank, busy, rank(s)) && HasEquation(s)
      modifies this
      ensures Inv(busy) && old(valid) <= valid && KeptOn(old(valid) - {s}, old(entries), entries)
      ensures At(entries, s) == old(At(entries, s)).(
        visible := VisibleValue(T, s, sol), revTri := RevDepValue(T, s, sol))
      decreases rank(s), 3
    {
      var d := T.defs(s);
      var tri := AnyPromptVisible(d.props, busy, rank(s));
      if tri == MOD && (TypeOf(s) != Tri || T.modules == NO) {
        tri := YES;
      }
      Store(s, At(entries, s).(visible := tri), busy);
      tri := NO;
      if d.revDep.Some? {
        assert forall t | t in ExprSymbols(d.revDep.value) :: t in Refs(T, s);
        tri := CalcExpr(d.revDep.value, busy, rank(s));
      }
      if tri == MOD && GetType(T, s) == Boolean {
        tri := YES;
      }
      Store(s, At(entries, s).(revTri := tri), busy);
    }

    /** The loop over the prompts. */
    method AnyPromptVisible(props: seq<Property>, ghost busy: set<Symbol>, ghost r: nat) returns (tri: Tristate)
      requires Inv(busy) && BusyAbove(rank, busy, r) && AllBelow(rank, PropsSymbols(props), r)
      modifies this
      ensures Inv(busy) && old(valid) <= valid && KeptOn(old(valid), old(entries), entries)
      ensures tri == PromptsValue(props, sol)
      decreases r, 2
    {
      tri := NO;
      var i := 0;
      while i < |props|
        invariant i <= |props|
        invariant Inv(busy) && old(valid) <= valid && KeptOn(old(valid), old(entries), entries)
        invariant ApplyOp(OR, tri, PromptsValue(props[i..], sol)) == PromptsValue(props, sol)
      {
        if props[i].Prompt? {
          ConditionBelow(rank, props, props[i], r);
          var v := CalcCondition(props[i].visible, busy, r);
          tri := ApplyOp(OR, tri, v);
        }
        i := i + 1;
      }
    }

    /** The boolean and tristate case: `curr.tri` and SYMBOL_WRITE. */
    method CalcLogical(s: Symbol, ghost busy: set<Symbol>) returns (tri: Tristate, write: bool)
      requires Inv(busy) && s in busy && BusyAbove(rank, busy, rank(s)) && HasEquation(s) && IsLogical(s)
      requires At(entries, s).visible == VisibleValue(T, s, sol) && At(entries, s).revTri == RevDepValue(T, s, sol)
      modifies this
      ensures Inv(busy) && old(valid) <= valid && KeptOn(old(valid), old(entries), entries)
      ensures tri == LogicalValue(T, s, sol)
      ensures !T.defs(s).auto ==> write == Written(T, s, sol)
      decreases rank(s), 3
    {
      var d, e := T.defs(s), At(entries, s);
      tri := NO;
      write := e.visible != NO;
      if e.visible != NO && d.hasUser {
        tri := ApplyOp(AND, d.userTri, e.visible);
      } else {
        if e.revTri != NO {
          write := true;
        }
        assert forall t | t in PropsSymbols(d.props) :: t in Refs(T, s);
        var def, defTri := GetDefaultProp(d.props, busy, rank(s));
        if def.Some? {
          FirstIsMember(d.props, sol);
          MemberSymbols(d.props, def.value);
          assert forall t | t in ExprSymbols(def.value.value) :: t in PropSymbols(def.value);
          write := true;
          var v := CalcExpr(def.value.value, busy, rank(s));
          tri := ApplyOp(AND, v, defTri);
        }
      }
      tri := ApplyOp(OR, tri, e.revTri);
      if tri == MOD && GetType(T, s) == Boolean {
        tri := YES;
      }
    }

    /** The string, hex and int case: `curr.val` before the range check, and SYMBOL_WRITE. */
    method CalcText(s: Symbol, ghost busy: set<Symbol>) returns (text: string, write: bool)
      requires Inv(busy) && s in busy && BusyAbove(rank, busy, rank(s)) && HasEquation(s) && !IsLogical(s)
      requires At(entries, s).visible == VisibleValue(T, s, sol)
      modifies this
      ensures Inv(busy) && old(valid) <= valid && KeptOn(old(valid), old(entries), entries)
      ensures var d := T.defs(s);
        text == if VisibleValue(T, s, sol) != NO && d.hasUser then d.userText
                else DefaultText(FirstDefault(d.props, sol), sol)
      ensures !T.defs(s).auto ==> write == Written(T, s, sol)
      decreases rank(s), 3
    {
      var d := T.defs(s);
      text := "";
      write := At(entries, s).visible != NO;
      if write && d.hasUser {
        text := d.userText;
        return;
      }
      assert forall t | t in PropsSymbols(d.props) :: t in Refs(T, s);
      var def, _ := GetDefaultProp(d.props, busy, rank(s));
      if def.Some? {
        FirstIsMember(d.props, sol);
        MemberSymbols(d.props, def.value);
        if def.value.value.Sym? {
          var ds := def.value.value.s;
          assert ds in PropSymbols(def.value);
          write := true;
          CalcValue(ds, busy);
          text := At(entries, ds).text;
        }
      }
    }

    /** A symbol without an equation of its own stands for its name. */
    method CalcByName(s: Symbol, ghost busy: set<Symbol>)
      requires Inv(busy) && s in busy && !HasEquation(s) && s !in {SymYes, SymMod, SymNo}
      modifies this`entries
      ensures Inv(busy) && KeptOn(valid - {s}, old(entries), entries)
      ensures At(entries, s) == Equation(T, s, sol)
    {
      Store(s, At(entries, s).(tri := NO, text := if s.Named? then T.defs(s).name else s.text), busy);
    }

    /** The rest of `sym_calc_value`, for a symbol already marked valid. */
    method CalcByType(s: Symbol, ghost busy: set<Symbol>)
      requires Inv(busy) && s in busy && BusyAbove(rank, busy, rank(s)) && HasEquation(s)
      modifies this
      ensures Inv(busy) && old(valid) <= valid && KeptOn(old(valid) - {s}, old(entries), entries)
      ensures At(entries, s) == Equation(T, s, sol)
      decreases rank(s), 4
    {
      Store(s, At(entries, s).(write := false), busy);
      CalcVisibility(s, busy);
      // set default if recursively called
      Store(s, At(entries, s).(tri := NO, text := if IsLogical(s) then "n" else ""), busy);
      if IsLogical(s) {
        var tri, write := CalcLogical(s, busy);
        Store(s, At(entries, s).(tri := tri, text := "n", write := write), busy);
      } else {
        var text, write := CalcText(s, busy);
        Store(s, At(entries, s).(tri := NO, text := text, write := write), busy);
      }
      ValidateRange(s, busy);
      if T.defs(s).auto {
        Store(s, At(entries, s).(write := false), busy);
      }
    }

    /** `sym_calc_value`. On return the symbol is valid and holds its solution, and nothing that was
        valid before has changed. */
    method CalcValue(s: Symbol, ghost busy: set<Symbol>)
      requires Inv(busy) && BusyAbove(rank, busy, rank(s) + 1)
      modifies this
      ensures Inv(busy) && old(valid) <= valid && KeptOn(old(valid), old(entries), entries)
      ensures s in valid && s !in busy
      decreases rank(s), 5
    {
      if s in valid {
        return;
      }
      valid := valid + {s};
      if HasEquation(s) {
        CalcByType(s, busy + {s});
      } else {
        CalcByName(s, busy + {s});
      }
      assert About(s);
    }

    /** Whatever symbols are asked for, in whatever order and however often, each ends up with the
        value that solves the equations. */
    method CalcAll(order: seq<Symbol>)
      requires Inv({})
      modifies this
      ensures Inv({}) && old(valid) <= valid
      ensures forall s | s in order :: s in valid && At(entries, s) == Equation(T, s, sol)
    {
      var i := 0;
      while i < |order|
        invariant i <= |order| && Inv({}) && old(valid) <= valid
        invariant forall k | 0 <= k < i :: order[k] in valid
      {
        CalcValue(order[i], {});
        i := i + 1;
      }
      forall s | s in order
        ensures At(entries, s) == Equation(T, s, sol)
      {
        assert About(s);
      }
    }
  }
}
