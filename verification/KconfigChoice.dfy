/** Boolean choices: whichever of the choice and its members is evaluated first, one member is on
    (at91bootstrap/config/symbol.c:195-287, 289-419). */
module KconfigChoice {
  import opened KconfigExpr
  import opened KconfigMeaning
  import opened KconfigMenuDeps
  import opened KconfigSymbols
  import opened Wrappers

  datatype ChoiceDefault = ChoiceDefault(visible: Option<Expr>, s: Symbol)

  /** A choice `cs` with its members in order, the prompts of each, the defaults
      and the reverse dependency of the choice, what the user has set, and what all other symbols
      hold. */
  datatype Choice = Choice(cs: Symbol, members: seq<Symbol>, prompts: map<Symbol, seq<Property>>,
                           defaults: seq<ChoiceDefault>, revDep: Option<Expr>,
                           userTri: Option<Tristate>, userPick: Option<Symbol>, outer: Assignment)

  ghost predicate Mentions(e: Option<Expr>, s: Symbol) {
    s in OptSymbols(e)
  }

  ghost predicate Avoids(e: Option<Expr>, ss: seq<Symbol>) {
    forall s | s in ss :: !Mentions(e, s)
  }

  ghost predicate Apart(c: Choice, e: Option<Expr>) {
    !Mentions(e, c.cs) && Avoids(e, c.members)
  }

  ghost predicate NeverShows(e: Option<Expr>) {
    forall a: Assignment | WellTyped(a) :: ValueOrYes(e, a) == NO
  }

  /** A prompt in the choice has the choice as a condition, or never shows. */
  ghost predicate Gated(cs: Symbol, e: Option<Expr>) {
    Mentions(e, cs) || NeverShows(e)
  }

  function Holding(a: Assignment, s: Symbol, v: SymVal): Assignment {
    (t: Symbol) => if t == s then v else a(t)
  }

  /** A condition that is `n` whenever the choice is, and that can be pushed further down. */
  ghost predicate OffWithout(cs: Symbol, e: Option<Expr>) {
    NoTestBelowNotOrNull(e) && forall a: Assignment | WellTyped(a) && a(cs).tri == NO :: ValueOrYes(e, a) == NO
  }

  /** The choice hands such a condition to its entries, and these hand one on to what is inside them: blocks
      their dependency, menus the visibility of their prompt (at91bootstrap/config/menu.c:265-297). */
  lemma InsideIsOffWithout(cs: Symbol, parentDep: Option<Expr>, dep: Option<Expr>, visible: Option<Expr>,
      tristate: bool)
    ensures OffWithout(cs, Some(Sym(cs)))
    ensures OffWithout(cs, parentDep) ==> OffWithout(cs, PropagatedDep(parentDep, dep))
    ensures OffWithout(cs, parentDep) ==>
      OffWithout(cs, PropagatedVisibility(PropagatedDep(parentDep, dep), visible, tristate))
  {
    if OffWithout(cs, parentDep) {
      ConditionsCanBePushed(parentDep, dep, visible, tristate);
      forall a: Assignment | WellTyped(a) && a(cs).tri == NO
        ensures ValueOrYes(PropagatedDep(parentDep, dep), a) == NO
        ensures ValueOrYes(PropagatedVisibility(PropagatedDep(parentDep, dep), visible, tristate), a) == NO
      {
        PropagatedDepIsConjunction(parentDep, dep, a);
        PropagatedVisibilityIsConjunction(parentDep, dep, visible, tristate, a);
      }
    }
  }

  /** Whatever the simplifications leave of it. */
  lemma PromptsAreGated(cs: Symbol, parentDep: Option<Expr>, dep: Option<Expr>, visible: Option<Expr>, tristate: bool)
    requires TypeOf(cs) == Boolean && OffWithout(cs, parentDep)
    ensures Gated(cs, PropagatedVisibility(PropagatedDep(parentDep, dep), visible, tristate))
  {
    var e := PropagatedVisibility(PropagatedDep(parentDep, dep), visible, tristate);
    InsideIsOffWithout(cs, parentDep, dep, visible, tristate);
    if !Mentions(e, cs) {
      forall a: Assignment | WellTyped(a)
        ensures ValueOrYes(e, a) == NO
      {
        var off := Holding(a, cs, SymVal(NO, "n"));
        assert WellTyped(off);
        OptAgrees(e, a, off);
      }
    }
  }

  /** A condition in the choice does not depend on a member, and those of the choice itself not on
      the choice; defaults and picks are members. */
  ghost predicate Proper(c: Choice) {
    TypeOf(c.cs) == Boolean && c.cs !in c.members &&
    (forall i, j | 0 <= i < j < |c.members| :: c.members[i] != c.members[j]) &&
    (forall m | m in c.members :: TypeOf(m) == Boolean) &&
    (forall s: Symbol | s == c.cs || s in c.members :: s in c.prompts) &&
    (forall m, k | m in c.members && 0 <= k < |c.prompts[m]| ::
       c.prompts[m][k].Prompt? && Avoids(c.prompts[m][k].visible, c.members) && Gated(c.cs, c.prompts[m][k].visible)) &&
    (forall k | 0 <= k < |c.prompts[c.cs]| :: c.prompts[c.cs][k].Prompt? && Apart(c, c.prompts[c.cs][k].visible)) &&
    WellTyped(c.outer) &&
    (forall k | 0 <= k < |c.defaults| :: c.defaults[k].s in c.members && Avoids(c.defaults[k].visible, c.members)) &&
    Apart(c, c.revDep) &&
    (c.userPick.Some? ==> c.userPick.value in c.members)
  }

  // ----- what comes out -----

  /** Everything else as it is, and the choice at `t`. */
  function With(c: Choice, t: Tristate): Assignment {
    Holding(c.outer, c.cs, SymVal(t, TriText(t)))
  }

  function PromptSize(e: Option<Expr>): nat {
    if e.Some? then Nodes(e.value) + 1 else 0
  }

  function VisibleIn(c: Choice, s: Symbol, a: Assignment): Tristate
    requires s in c.prompts
  {
    Promote(true, PromptsValue(c.prompts[s], a))
  }

  /** The value of the choice by its own conditions. */
  function OwnValue(c: Choice): Tristate
    requires c.cs in c.prompts
  {
    var visible := VisibleIn(c, c.cs, With(c, NO));
    var base := if visible != NO && c.userTri.Some? then ApplyOp(AND, c.userTri.value, visible) else NO;
    Promote(true, ApplyOp(OR, base, if c.revDep.None? then NO else Promote(true, Value(c.revDep.value, With(c, NO)))))
  }

  predicate Offered(c: Choice, m: Symbol)
    requires m in c.prompts
  {
    VisibleIn(c, m, With(c, YES)) != NO
  }

  ghost function FirstDefaultFrom(c: Choice, k: nat): Option<Symbol>
    requires Proper(c) && k <= |c.defaults|
    decreases |c.defaults| - k
  {
    if k == |c.defaults| then None
    else if ValueOrYes(c.defaults[k].visible, With(c, YES)) != NO && Offered(c, c.defaults[k].s) then
      Some(c.defaults[k].s)
    else FirstDefaultFrom(c, k + 1)
  }

  ghost function FirstOfferedFrom(c: Choice, k: nat): (m: Option<Symbol>)
    requires Proper(c) && k <= |c.members|
    decreases |c.members| - k
  {
    if k == |c.members| then None
    else if Offered(c, c.members[k]) then Some(c.members[k])
    else FirstOfferedFrom(c, k + 1)
  }

  /** The member that is on: the user's if it is offered, else the first default that is, else the
      first member that is. */
  ghost function Picked(c: Choice): Option<Symbol>
    requires Proper(c)
  {
    if c.userPick.Some? && Offered(c, c.userPick.value) then c.userPick
    else if FirstDefaultFrom(c, 0).Some? then FirstDefaultFrom(c, 0)
    else FirstOfferedFrom(c, 0)
  }

  ghost function FinalChoice(c: Choice): Tristate
    requires Proper(c)
  {
    if OwnValue(c) == YES && Picked(c).Some? then YES else NO
  }

  ghost function FinalMember(c: Choice, m: Symbol): Tristate
    requires Proper(c)
  {
    if FinalChoice(c) == YES && Picked(c) == Some(m) then YES else NO
  }

  lemma {:induction false} DefaultIsOffered(c: Choice, k: nat)
    requires Proper(c) && k <= |c.defaults| && FirstDefaultFrom(c, k).Some?
    ensures var m := FirstDefaultFrom(c, k).value; m in c.members && Offered(c, m)
    decreases |c.defaults| - k
  {
    if k < |c.defaults| && !(ValueOrYes(c.defaults[k].visible, With(c, YES)) != NO && Offered(c, c.defaults[k].s)) {
      DefaultIsOffered(c, k + 1);
    }
  }

  lemma {:induction false} FirstOfferedIs(c: Choice, k: nat)
    requires Proper(c) && k <= |c.members|
    ensures FirstOfferedFrom(c, k).Some? ==>
      FirstOfferedFrom(c, k).value in c.members && Offered(c, FirstOfferedFrom(c, k).value)
    ensures FirstOfferedFrom(c, k).None? ==> forall j | k <= j < |c.members| :: !Offered(c, c.members[j])
    decreases |c.members| - k
  {
    if k < |c.members| && !Offered(c, c.members[k]) {
      FirstOfferedIs(c, k + 1);
    }
  }

  /** The pick is a member that is offered, and there is one as soon as any member is. */
  lemma PickedIsOffered(c: Choice)
    requires Proper(c)
    ensures Picked(c).Some? ==> Picked(c).value in c.members && Offered(c, Picked(c).value)
    ensures Picked(c).Some? <==> exists m :: m in c.members && Offered(c, m)
  {
    FirstOfferedIs(c, 0);
    if FirstDefaultFrom(c, 0).Some? {
      DefaultIsOffered(c, 0);
    }
  }

  /** Default number `k` names a member that is offered, under a condition that is not `n`. */
  ghost predicate DefaultServes(c: Choice, k: nat)
    requires Proper(c)
  {
    k < |c.defaults| && ValueOrYes(c.defaults[k].visible, With(c, YES)) != NO && Offered(c, c.defaults[k].s)
  }

  lemma {:induction false} FirstDefaultIs(c: Choice, k: nat, n: nat)
    requires Proper(c) && k <= n <= |c.defaults| && forall j: nat | k <= j < n :: !DefaultServes(c, j)
    ensures DefaultServes(c, n) ==> FirstDefaultFrom(c, k) == Some(c.defaults[n].s)
    ensures n == |c.defaults| ==> FirstDefaultFrom(c, k) == None
    decreases n - k
  {
    if k < n {
      assert !DefaultServes(c, k);
      FirstDefaultIs(c, k + 1, n);
    }
  }

  ghost predicate MemberOffered(c: Choice, k: nat)
    requires Proper(c)
  {
    k < |c.members| && Offered(c, c.members[k])
  }

  lemma {:induction false} FirstMemberIs(c: Choice, k: nat, n: nat)
    requires Proper(c) && k <= n && MemberOffered(c, n) && forall j: nat | k <= j < n :: !MemberOffered(c, j)
    ensures FirstOfferedFrom(c, k) == Some(c.members[n])
    decreases n - k
  {
    if k < n {
      assert !MemberOffered(c, k);
      FirstMemberIs(c, k + 1, n);
    }
  }

  ghost predicate PickOffered(c: Choice)
    requires Proper(c)
  {
    c.userPick.Some? && Offered(c, c.userPick.value)
  }

  /** The user's pick wins where it is offered. Without it the first default that serves does, whatever
      comes later; and without such a default the first member that is offered. */
  lemma PickedIs(c: Choice)
    requires Proper(c)
    ensures PickOffered(c) ==> Picked(c) == c.userPick
    ensures !PickOffered(c) ==> forall n: nat | DefaultServes(c, n) && forall j: nat | j < n :: !DefaultServes(c, j) ::
      Picked(c) == Some(c.defaults[n].s)
    ensures !PickOffered(c) && (forall n: nat :: !DefaultServes(c, n)) ==>
      forall n: nat | MemberOffered(c, n) && forall j: nat | j < n :: !MemberOffered(c, j) ::
        Picked(c) == Some(c.members[n])
  {
    forall n: nat | DefaultServes(c, n) && forall j: nat | j < n :: !DefaultServes(c, j)
      ensures FirstDefaultFrom(c, 0) == Some(c.defaults[n].s)
    {
      FirstDefaultIs(c, 0, n);
    }
    if forall n: nat :: !DefaultServes(c, n) {
      FirstDefaultIs(c, 0, |c.defaults|);
      forall n: nat | MemberOffered(c, n) && forall j: nat | j < n :: !MemberOffered(c, j)
        ensures FirstOfferedFrom(c, 0) == Some(c.members[n])
      {
        FirstMemberIs(c, 0, n);
      }
    }
  }

  /** A member is offered if one of its prompts can be seen with the choice on. */
  lemma OfferedExactlyWhen(c: Choice, m: Symbol)
    requires m in c.prompts
    ensures Offered(c, m) <==> PromptsReach(c.prompts[m], With(c, YES), MOD)
  {
    PromptsValueExactlyWhen(c.prompts[m], With(c, YES), MOD);
  }

  /** By its own conditions a choice is on if it is selected, or if the user has set it and one of its
      prompts can be seen; else it is off. */
  lemma OwnValueExactlyWhen(c: Choice)
    requires c.cs in c.prompts
    ensures OwnValue(c) == YES <==>
      (c.revDep.Some? && Value(c.revDep.value, With(c, NO)) != NO) ||
      (c.userTri.Some? && c.userTri.value != NO && PromptsReach(c.prompts[c.cs], With(c, NO), MOD))
    ensures OwnValue(c) != MOD
  {
    PromptsValueExactlyWhen(c.prompts[c.cs], With(c, NO), MOD);
  }

  /** In a choice that is on by its own conditions, exactly one member is on, exactly if any is
      offered. */
  lemma ExactlyOneMember(c: Choice)
    requires Proper(c)
    ensures (exists m :: m in c.members && FinalMember(c, m) == YES) <==>
            OwnValue(c) == YES && exists m :: m in c.members && Offered(c, m)
    ensures forall m, n | m in c.members && n in c.members && FinalMember(c, m) == YES &&
      FinalMember(c, n) == YES :: m == n
  {
    PickedIsOffered(c);
    if FinalChoice(c) == YES {
      assert FinalMember(c, Picked(c).value) == YES;
    }
  }

  lemma OnlyVisibleIsPicked(c: Choice, m: Symbol)
    requires Proper(c) && m in c.members
    ensures FinalMember(c, m) == YES ==> VisibleIn(c, m, With(c, FinalChoice(c))) == YES
  {
    PickedIsOffered(c);
  }

  // ----- the evaluation -----

  class ChoiceGroup {
    const c: Choice
    var valid: set<Symbol>
    var tri: map<Symbol, Tristate>
    var visible: map<Symbol, Tristate>
    /** `curr.val` of the choice */
    var chosen: Option<Symbol>

    ghost predicate Complete()
      reads this
    {
      Proper(c) && (forall s: Symbol | s == c.cs || s in c.members :: s in tri && s in visible) && tri[c.cs] != MOD
    }

    /** Asked for the choice, an expression gets `shows`. */
    ghost predicate Shows(shows: Tristate)
      reads this
    {
      Complete() && shows == if c.cs in valid then tri[c.cs] else FinalChoice(c)
    }

    ghost predicate Settled()
      reads this
    {
      Complete() && c.cs in valid && tri[c.cs] == FinalChoice(c) &&
      chosen == if FinalChoice(c) == YES then Picked(c) else None
    }

    /** Nothing happened, or the choice was evaluated; that leaves the members' values alone. */
    twostate predicate Asked()
      reads this
    {
      (forall m | m in c.members :: m in tri && m in old(tri) && tri[m] == old(tri)[m]) &&
      ((valid == old(valid) && c.cs in tri && c.cs in old(tri) && tri[c.cs] == old(tri)[c.cs] &&
        chosen == old(chosen)) ||
       (c.cs !in old(valid) && valid == old(valid) + {c.cs} && Settled()))
    }

    ghost function Pending(): nat
      reads this
    {
      if c.cs in valid then 0 else 1
    }

    /** `expr_calc_value` */
    method CalcExpr(e: Expr, ghost shows: Tristate) returns (v: Tristate)
      requires Shows(shows) && Avoids(Some(e), c.members)
      modifies this
      ensures Shows(shows) && Asked() && v == Value(e, With(c, shows))
      ensures old(c.cs in valid) ==> visible == old(visible)
      ensures Mentions(Some(e), c.cs) ==> c.cs in valid
      decreases Pending(), 2, Nodes(e)
    {
      match e
      case Sym(s) =>
        assert s in OptSymbols(Some(e));
        var val := CalcSymbol(s, shows);
        v := val.tri;
      case Not(x) =>
        assert forall s | s in c.members :: s in OptSymbols(Some(x)) ==> Mentions(Some(e), s);
        var val1 := CalcExpr(x, shows);
        v := 2 - val1;
      case Comp(equal, left, right) =>
        assert left in OptSymbols(Some(e)) && right in OptSymbols(Some(e));
        var val1 := CalcSymbol(left, shows);
        var val2 := CalcSymbol(right, shows);
        v := Truth((val1.str == val2.str) == equal);
      case Bin(op, x, y) =>
        assert forall s | s in c.members :: s in OptSymbols(Some(x)) + OptSymbols(Some(y)) ==> Mentions(Some(e), s);
        var val1 := CalcExpr(x, shows);
        var val2 := CalcExpr(y, shows);
        v := ApplyOp(op, val1, val2);
    }

    method CalcSymbol(s: Symbol, ghost shows: Tristate) returns (val: SymVal)
      requires Shows(shows) && s !in c.members
      modifies this
      ensures Shows(shows) && Asked() && val == With(c, shows)(s)
      ensures old(c.cs in valid) ==> visible == old(visible)
      ensures s == c.cs ==> c.cs in valid
      decreases Pending(), 1, 1
    {
      if s == c.cs {
        CalcChoiceValue();
        val := SymVal(tri[s], TriText(tri[s]));
      } else {
        val := c.outer(s);
      }
    }

    /** `sym_calc_visibility`, for the prompts. */
    method CalcVisibility(s: Symbol, ghost shows: Tristate)
      requires Shows(shows) && (s == c.cs || s in c.members)
      modifies this
      ensures Shows(shows) && Asked() && visible[s] == VisibleIn(c, s, With(c, shows))
      ensures old(c.cs in valid) ==> visible == old(visible)[s := visible[s]]
      ensures s in c.members && visible[s] != NO ==> c.cs in valid
      decreases Pending(), 4
    {
      var t := CalcPrompts(s, shows);
      visible := visible[s := Promote(true, t)];
    }

    method CalcPrompts(s: Symbol, ghost shows: Tristate) returns (t: Tristate)
      requires Shows(shows) && (s == c.cs || s in c.members)
      modifies this
      ensures Shows(shows) && Asked() && t == PromptsValue(c.prompts[s], With(c, shows))
      ensures old(c.cs in valid) ==> visible == old(visible)
      ensures s in c.members && t != NO ==> c.cs in valid
      decreases Pending(), 3, 0
    {
      t := NO;
      var prompts := c.prompts[s];
      for k := 0 to |prompts|
        invariant Shows(shows) && Asked()
        invariant ApplyOp(OR, t, PromptsValue(prompts[k..], With(c, shows))) == PromptsValue(prompts, With(c, shows))
        invariant old(c.cs in valid) ==> visible == old(visible)
        invariant s in c.members && t != NO ==> c.cs in valid
      {
        var v := CalcPrompt(s, k, shows);
        t := ApplyOp(OR, t, v);
      }
    }

    method CalcPrompt(s: Symbol, k: nat, ghost shows: Tristate) returns (v: Tristate)
      requires Shows(shows) && (s == c.cs || s in c.members) && k < |c.prompts[s]|
      modifies this
      ensures Shows(shows) && Asked() && v == ValueOrYes(c.prompts[s][k].visible, With(c, shows))
      ensures old(c.cs in valid) ==> visible == old(visible)
      ensures s in c.members && v != NO ==> c.cs in valid
      decreases Pending(), 2, PromptSize(c.prompts[s][k].visible) + 1
    {
      v := CalcCondition(c.prompts[s][k].visible, shows);
      if s in c.members && !Mentions(c.prompts[s][k].visible, c.cs) {
        WithIsWellTyped(c, shows);
      }
    }

    method CalcCondition(e: Option<Expr>, ghost shows: Tristate) returns (v: Tristate)
      requires Shows(shows) && Avoids(e, c.members)
      modifies this
      ensures Shows(shows) && Asked() && v == ValueOrYes(e, With(c, shows))
      ensures old(c.cs in valid) ==> visible == old(visible)
      ensures Mentions(e, c.cs) ==> c.cs in valid
      decreases Pending(), 2, PromptSize(e)
    {
      v := YES;
      if e.Some? {
        v := CalcExpr(e.value, shows);
      }
    }

    /** `sym_calc_value` of the choice: its own conditions, and then the member that is on. If there is
        none the choice is off after all. */
    method CalcChoiceValue()
      requires Complete()
      modifies this
      ensures old(c.cs in valid) ==>
        valid == old(valid) && tri == old(tri) && visible == old(visible) && chosen == old(chosen)
      ensures old(c.cs !in valid) ==> valid == old(valid) + {c.cs} && Settled()
      ensures Complete() && forall m | m in c.members :: m in old(tri) && tri[m] == old(tri)[m]
      decreases Pending(), 1, 0
    {
      if c.cs !in valid {
        valid := valid + {c.cs};
        var newval := CalcOwnValue();
        tri, chosen := tri[c.cs := newval], None;
        if newval == YES {
          CalcChoice();
        }
      }
    }

    method CalcOwnValue() returns (newval: Tristate)
      requires Complete() && c.cs in valid
      modifies this
      ensures Complete() && valid == old(valid) && newval == OwnValue(c)
      ensures forall m | m in c.members :: m in old(tri) && tri[m] == old(tri)[m]
      decreases 0, 5
    {
      ghost var shows := tri[c.cs];
      CalcVisibility(c.cs, shows);
      ApartFromChoice(c, c.prompts[c.cs], shows);
      var rev: Tristate := NO;
      if c.revDep.Some? {
        rev := CalcExpr(c.revDep.value, shows);
        rev := Promote(true, rev);
        AgreesApart(c, c.revDep, shows);
      }
      newval := NO;
      if visible[c.cs] != NO && c.userTri.Some? {
        newval := ApplyOp(AND, c.userTri.value, visible[c.cs]);
      }
      newval := Promote(true, ApplyOp(OR, newval, rev));
    }

    /** `sym_calc_choice` */
    method CalcChoice()
      requires Complete() && c.cs in valid && tri[c.cs] == YES && OwnValue(c) == YES && chosen == None
      modifies this
      ensures valid == old(valid) && Settled()
      ensures forall m | m in c.members :: m in old(tri) && tri[m] == old(tri)[m]
      decreases 0, 9
    {
      CalcMemberVisibilities();
      if c.userPick.Some? && visible[c.userPick.value] != NO {
        chosen := c.userPick;
      } else {
        var pick := ChoiceDefaultSymbol();
        if pick.None? {
          tri := tri[c.cs := NO];
        }
        chosen := pick;
      }
    }

    method CalcMemberVisibilities()
      requires Shows(YES) && c.cs in valid
      modifies this
      ensures Shows(YES) && Asked() && valid == old(valid)
      ensures forall j | 0 <= j < |c.members| :: (visible[c.members[j]] != NO) == Offered(c, c.members[j])
      decreases 0, 5
    {
      for k := 0 to |c.members|
        invariant Shows(YES) && Asked() && valid == old(valid)
        invariant forall j | 0 <= j < k :: (visible[c.members[j]] != NO) == Offered(c, c.members[j])
      {
        CalcVisibility(c.members[k], YES);
      }
    }

    /** `sym_choice_default` */
    method ChoiceDefaultSymbol() returns (pick: Option<Symbol>)
      requires Shows(YES) && c.cs in valid
      modifies this
      ensures Shows(YES) && Asked() && valid == old(valid)
      ensures pick == if FirstDefaultFrom(c, 0).Some? then FirstDefaultFrom(c, 0) else FirstOfferedFrom(c, 0)
      decreases 0, 8
    {
      pick := FirstVisibleDefault();
      if pick.None? {
        pick := FirstVisibleMember();
      }
    }

    method IsOffered(m: Symbol) returns (yes: bool)
      requires Shows(YES) && c.cs in valid && m in c.members
      modifies this
      ensures Shows(YES) && Asked() && valid == old(valid) && yes == Offered(c, m)
      decreases 0, 5
    {
      CalcVisibility(m, YES);
      yes := visible[m] != NO;
    }

    method IsVisibleDefault(k: nat) returns (yes: bool)
      requires Shows(YES) && c.cs in valid && k < |c.defaults|
      modifies this
      ensures Shows(YES) && Asked() && valid == old(valid)
      ensures yes == (ValueOrYes(c.defaults[k].visible, With(c, YES)) != NO && Offered(c, c.defaults[k].s))
      decreases 0, 6
    {
      var d := c.defaults[k];
      var v := CalcCondition(d.visible, YES);
      yes := false;
      if v != NO {
        yes := IsOffered(d.s);
      }
    }

    method FirstVisibleDefault() returns (pick: Option<Symbol>)
      requires Shows(YES) && c.cs in valid
      modifies this
      ensures Shows(YES) && Asked() && valid == old(valid) && pick == FirstDefaultFrom(c, 0)
      decreases 0, 7
    {
      for k := 0 to |c.defaults|
        invariant Shows(YES) && Asked() && valid == old(valid)
        invariant FirstDefaultFrom(c, 0) == FirstDefaultFrom(c, k)
      {
        var yes := IsVisibleDefault(k);
        if yes {
          return Some(c.defaults[k].s);
        }
      }
      pick := None;
    }

    method FirstVisibleMember() returns (pick: Option<Symbol>)
      requires Shows(YES) && c.cs in valid
      modifies this
      ensures Shows(YES) && Asked() && valid == old(valid) && pick == FirstOfferedFrom(c, 0)
      decreases 0, 7
    {
      for k := 0 to |c.members|
        invariant Shows(YES) && Asked() && valid == old(valid)
        invariant FirstOfferedFrom(c, 0) == FirstOfferedFrom(c, k)
      {
        var yes := IsOffered(c.members[k]);
        if yes {
          return Some(c.members[k]);
        }
      }
      pick := None;
    }

    /** What holds between any two calls. */
    ghost predicate Stable()
      reads this
    {
      Complete() && (c.cs in valid ==> Settled()) &&
      forall m | m in c.members && m in valid :: tri[m] == FinalMember(c, m)
    }

    /** `sym_calc_value` of a member without defaults. */
    method CalcMember(m: Symbol)
      requires Stable() && m in c.members
      modifies this
      ensures Stable() && m in valid && old(valid) <= valid
    {
      if m !in valid {
        valid := valid + {m};
        CalcVisibility(m, FinalChoice(c));
        OnlyVisibleIsPicked(c, m);
        tri := tri[m := NO];
        if visible[m] == YES {
          tri := tri[m := if chosen == Some(m) then YES else NO];
        }
      }
    }

    /** Evaluating the choice and its members in any order, from scratch. */
    method Evaluate(order: seq<Symbol>)
      requires Complete() && valid == {} && forall s | s in order :: s == c.cs || s in c.members
      modifies this
      ensures forall m | m in order && m in c.members :: m in tri && tri[m] == FinalMember(c, m)
      ensures c.cs in order ==> c.cs in tri && tri[c.cs] == FinalChoice(c)
    {
      for k := 0 to |order|
        invariant Stable() && forall j | 0 <= j < k :: order[j] in valid
      {
        if order[k] == c.cs {
          CalcChoiceValue();
        } else {
          assert order[k] in order;
          CalcMember(order[k]);
        }
      }
    }
  }

  lemma AgreesApart(c: Choice, e: Option<Expr>, t: Tristate)
    requires Apart(c, e)
    ensures ValueOrYes(e, With(c, t)) == ValueOrYes(e, With(c, NO))
  {
    OptAgrees(e, With(c, t), With(c, NO));
  }

  lemma {:induction false} ApartFromChoice(c: Choice, prompts: seq<Property>, t: Tristate)
    requires forall k | 0 <= k < |prompts| :: prompts[k].Prompt? && Apart(c, prompts[k].visible)
    ensures PromptsValue(prompts, With(c, t)) == PromptsValue(prompts, With(c, NO))
  {
    if prompts != [] {
      AgreesApart(c, prompts[0].visible, t);
      ApartFromChoice(c, prompts[1..], t);
    }
  }

  lemma WithIsWellTyped(c: Choice, t: Tristate)
    requires WellTyped(c.outer) && TypeOf(c.cs) == Boolean && t != MOD
    ensures WellTyped(With(c, t))
  {
  }
}
