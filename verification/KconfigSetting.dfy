/** Setting a boolean or tristate symbol (at91bootstrap/config/symbol.c:455-510), for tables without choices: what
    the evaluator then makes of the user's value. */
module KconfigSetting {
  import opened KconfigCheckDeps
  import opened KconfigExpr
  import opened KconfigMeaning
  import opened KconfigSymbols
  import opened Wrappers

  /** `sym_tristate_within_range`, given what the evaluator has stored in the symbol. */
  predicate WithinRange(T: Table, s: Symbol, e: Entry, val: Tristate) {
    e.visible != NO &&
    IsLogical(s) &&
    !(GetType(T, s) == Boolean && val == MOD) &&
    e.visible > e.revTri &&
    e.revTri <= val <= e.visible
  }

  function SetUser(T: Table, s: Symbol, val: Tristate): Table {
    T.(defs := (t: Symbol) => if t == s then T.defs(s).(hasUser := true, userTri := val) else T.defs(t))
  }

  /** `sym_set_tristate_value`: the table afterwards, or nothing if the value is refused. */
  function SetTristate(T: Table, s: Symbol, e: Entry, val: Tristate): Option<Table> {
    if e.tri != val && !WithinRange(T, s, e, val) then None else Some(SetUser(T, s, val))
  }

  /** What `select` statements ask of a symbol. */
  function Selected(d: Definition, a: Assignment): Tristate {
    if d.revDep.Some? then Value(d.revDep.value, a) else NO
  }

  /** A new value has to be `n` or `y` of a boolean that can be seen and that nothing selects; or, of a
      tristate symbol, between what is selected and what some prompt shows, where some prompt shows
      more than is selected. */
  ghost predicate IsOffered(T: Table, s: Symbol, a: Assignment, val: Tristate) {
    var props, selected := T.defs(s).props, Selected(T.defs(s), a);
    if GetType(T, s) == Boolean then val != MOD && PromptsReach(props, a, MOD) && selected == NO
    else selected <= val && selected < YES && PromptsReach(props, a, selected + 1) && PromptsReach(props, a, val)
  }

  lemma WithinRangeExactlyWhen(T: Table, s: Symbol, a: Assignment, e: Entry, val: Tristate)
    requires IsLogical(s) && e.visible == VisibleValue(T, s, a) && e.revTri == RevDepValue(T, s, a)
    ensures WithinRange(T, s, e, val) <==> IsOffered(T, s, a, val)
  {
    var props, selected := T.defs(s).props, Selected(T.defs(s), a);
    VisibleExactlyWhen(T, s, a, MOD);
    if selected < YES {
      VisibleExactlyWhen(T, s, a, selected + 1);
      if PromptsReach(props, a, selected + 1) {
        var k: nat :| PromptAllows(props, a, k, selected + 1);
        assert PromptAllows(props, a, k, NO);
      }
    }
    if val != NO {
      VisibleExactlyWhen(T, s, a, val);
    }
  }

  lemma EntryIs(T: Table, rank: Symbol -> nat, s: Symbol)
    requires Ranked(T, rank) && s.Named? && IsLogical(s)
    ensures Spec(T, rank, s).visible == VisibleValue(T, s, Solution(T, rank))
    ensures Spec(T, rank, s).revTri == RevDepValue(T, s, Solution(T, rank))
  {
    SpecIsEquation(T, rank, s);
  }

  /** What is accepted, beside the value that the symbol has. */
  lemma NewValueAcceptedExactlyWhen(T: Table, rank: Symbol -> nat, s: Symbol, val: Tristate)
    requires Ranked(T, rank) && s.Named? && IsLogical(s) && Spec(T, rank, s).tri != val
    ensures SetTristate(T, s, Spec(T, rank, s), val).Some? <==> IsOffered(T, s, Solution(T, rank), val)
  {
    EntryIs(T, rank, s);
    WithinRangeExactlyWhen(T, s, Solution(T, rank), Spec(T, rank, s), val);
  }

  lemma SetKeepsRefs(T: Table, rank: Symbol -> nat, s: Symbol, val: Tristate)
    requires Ranked(T, rank)
    ensures Ranked(SetUser(T, s, val), rank)
  {
    forall t: Symbol, u: Symbol | u in Refs(SetUser(T, s, val), t)
      ensures rank(u) < rank(t)
    {
      assert u in Refs(T, t);
    }
  }

  /** A symbol whose value does not lead to `s` does not notice. */
  lemma {:induction false} UnrelatedSymbolsStay(T: Table, rank: Symbol -> nat, s: Symbol, val: Tristate, t: Symbol)
    requires Ranked(T, rank) && !LeadsTo(T, t, s)
    ensures Spec(SetUser(T, s, val), rank, t) == Spec(T, rank, t)
    decreases rank(t)
  {
    var T' := SetUser(T, s, val);
    SetKeepsRefs(T, rank, s, val);
    assert IsRefPathFromTo(T, [t], t, t);
    forall u | u in Refs(T, t)
      ensures Solution(T', rank)(u) == Solution(T, rank)(u)
    {
      if LeadsTo(T, u, s) {
        PrependRef(T, t, u, s);
      }
      UnrelatedSymbolsStay(T, rank, s, val, u);
    }
    SpecIsEquation(T, rank, t);
    SpecIsEquation(T', rank, t);
    EquationAgrees(T, t, Solution(T', rank), Solution(T, rank));
    SameDefinitionSameEquation(T, s, val, t, Solution(T', rank));
  }

  /** Where there is a ranking, what a symbol looks at does not lead back to it. */
  lemma RefsLeadAway(T: Table, rank: Symbol -> nat, s: Symbol, u: Symbol)
    requires Ranked(T, rank) && u in Refs(T, s)
    ensures !LeadsTo(T, u, s)
  {
    if LeadsTo(T, u, s) {
      var p :| IsRefPathFromTo(T, p, u, s);
      RankedPathsDescend(T, rank, p);
    }
  }

  lemma SameDefinitionSameEquation(T: Table, s: Symbol, val: Tristate, t: Symbol, a: Assignment)
    requires t != s
    ensures Equation(SetUser(T, s, val), t, a) == Equation(T, t, a)
  {
  }

  /** The symbol itself sees the same world, with the user's value in it. */
  lemma OwnEquation(T: Table, rank: Symbol -> nat, s: Symbol, val: Tristate)
    requires Ranked(T, rank) && s.Named? && IsLogical(s)
    ensures var T' := SetUser(T, s, val);
      Spec(T', rank, s) == Equation(T', s, Solution(T, rank))
  {
    var T' := SetUser(T, s, val);
    SetKeepsRefs(T, rank, s, val);
    forall u | u in Refs(T', s)
      ensures Solution(T', rank)(u) == Solution(T, rank)(u)
    {
      assert u in Refs(T, s);
      RefsLeadAway(T, rank, s, u);
      UnrelatedSymbolsStay(T, rank, s, val, u);
    }
    SpecIsEquation(T', rank, s);
    EquationAgrees(T', s, Solution(T', rank), Solution(T, rank));
  }

  /** Whatever the user sets, the symbol does not fall below what selected it before. */
  lemma NeverBelowSelected(T: Table, rank: Symbol -> nat, s: Symbol, val: Tristate)
    requires Ranked(T, rank) && s.Named? && IsLogical(s)
    ensures Spec(SetUser(T, s, val), rank, s).tri >= Spec(T, rank, s).revTri
  {
    SpecIsEquation(T, rank, s);
    OwnEquation(T, rank, s, val);
  }

  /** The same, of the symbol's own equation with everything else as it is. */
  lemma OwnValueExactlyWhen(T: Table, s: Symbol, val: Tristate, a: Assignment)
    requires s.Named? && IsLogical(s) && SetTristate(T, s, Equation(T, s, a), val).Some?
    ensures var e := Equation(T, s, a);
      Equation(SetUser(T, s, val), s, a).tri == val <==> e.visible == NO || val <= e.visible || val <= e.revTri
  {
  }

  /** A value that was accepted is the value afterwards, unless the symbol already had it by a default
      above what its prompts allow: then it falls to what they allow. */
  lemma SetTakesEffectExactlyWhen(T: Table, rank: Symbol -> nat, s: Symbol, val: Tristate)
    requires Ranked(T, rank) && s.Named? && IsLogical(s) && SetTristate(T, s, Spec(T, rank, s), val).Some?
    ensures var e := Spec(T, rank, s);
      Solution(SetTristate(T, s, e, val).value, rank)(s).tri == val <==>
        e.visible == NO || val <= e.visible || val <= e.revTri
  {
    SpecIsEquation(T, rank, s);
    OwnValueExactlyWhen(T, s, val, Solution(T, rank));
    OwnEquation(T, rank, s, val);
  }

  /** In particular a new value always takes effect. */
  lemma NewValueTakesEffect(T: Table, rank: Symbol -> nat, s: Symbol, val: Tristate)
    requires Ranked(T, rank) && s.Named? && IsLogical(s) && Spec(T, rank, s).tri != val
    requires SetTristate(T, s, Spec(T, rank, s), val).Some?
    ensures Solution(SetTristate(T, s, Spec(T, rank, s), val).value, rank)(s).tri == val
  {
    SetTakesEffectExactlyWhen(T, rank, s, val);
  }

  /** A tristate symbol that is `y` by default and has a prompt at `m`: setting it to the `y` it has is
      accepted, and leaves it at `m`. */
  lemma SettingDefaultCanLower(T: Table, rank: Symbol -> nat, s: Symbol)
    requires Ranked(T, rank) && s.Named? && TypeOf(s) == Tri && T.modules == YES
    requires T.defs(s).props == [Prompt(Some(Sym(SymMod))), Default(None, Sym(SymYes))]
    requires T.defs(s).revDep == None && !T.defs(s).hasUser
    ensures Spec(T, rank, s).tri == YES && SetTristate(T, s, Spec(T, rank, s), YES).Some?
    ensures Solution(SetTristate(T, s, Spec(T, rank, s), YES).value, rank)(s).tri == MOD
  {
    SpecIsEquation(T, rank, s);
    SpecIsEquation(T, rank, SymYes);
    SpecIsEquation(T, rank, SymMod);
    OwnEquation(T, rank, s, YES);
    var a, props := Solution(T, rank), T.defs(s).props;
    assert a(SymMod).tri == MOD && a(SymYes).tri == YES;
    assert props[1..] == [Default(None, Sym(SymYes))] && props[1..][1..] == [];
    assert PromptsValue(props[1..][1..], a) == NO && PromptsValue(props[1..], a) == NO;
    assert PromptsValue(props, a) == MOD;
    assert FirstDefault(props[1..], a) == Some(props[1]) && FirstDefault(props, a) == Some(props[1]);
  }
}
