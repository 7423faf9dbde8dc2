/** The search for dependency cycles (at91bootstrap/config/symbol.c:907-962, 1000-1039) on tables without choices,
    started from every symbol as in at91bootstrap/config/zconf.y. */
module KconfigCheckDeps {
  import opened KconfigExpr
  import opened KconfigSymbols
  import opened Wrappers

  // ----- the graph it searches -----

  function CheckedInProp(p: Property): seq<Symbol> {
    match p
    case Select(_, _) => []
    case Default(visible, value) => OptSymbols(visible) + ExprSymbols(value)
    case _ => OptSymbols(p.visible)
  }

  function CheckedInProps(props: seq<Property>): seq<Symbol> {
    if props == [] then [] else CheckedInProp(props[0]) + CheckedInProps(props[1..])
  }

  /** The symbols looked into from `s`: its reverse dependency, conditions and default values. */
  function Edges(T: Table, s: Symbol): seq<Symbol> {
    if s.Named? then OptSymbols(T.defs(s).revDep) + CheckedInProps(T.defs(s).props) else []
  }

  predicate IsPath(T: Table, p: seq<Symbol>) {
    |p| >= 1 && forall i | 0 <= i < |p| - 1 :: p[i + 1] in Edges(T, p[i])
  }

  predicate IsPathFromTo(T: Table, p: seq<Symbol>, s: Symbol, t: Symbol) {
    IsPath(T, p) && p[0] == s && p[|p| - 1] == t
  }

  predicate IsCycle(T: Table, p: seq<Symbol>) {
    |p| >= 2 && IsPath(T, p) && p[0] == p[|p| - 1]
  }

  ghost predicate HasCycle(T: Table) {
    exists p :: IsCycle(T, p)
  }

  lemma ExtendPath(T: Table, s: Symbol, t: Symbol, p: seq<Symbol>, u: Symbol)
    requires t in Edges(T, s) && IsPathFromTo(T, p, t, u)
    ensures IsPathFromTo(T, [s] + p, s, u)
  {
  }

  // ----- the search -----

  ghost predicate LooksInto(T: Table, s: Symbol, ts: seq<Symbol>) {
    forall t | t in ts :: t in Edges(T, s)
  }

  lemma NextProp(props: seq<Property>, i: nat)
    requires i < |props|
    ensures CheckedInProps(props[i..]) == CheckedInProp(props[i]) + CheckedInProps(props[i + 1..])
  {
    assert props[i..][0] == props[i] && props[i..][1..] == props[i + 1..];
  }

  /** Each symbol in `done` has had all its edges followed, to symbols that were done before it. */
  ghost predicate Finished(T: Table, done: set<Symbol>, order: map<Symbol, nat>, clock: nat) {
    done <= order.Keys &&
    forall s | s in done :: order[s] < clock && forall t | t in Edges(T, s) :: t in done && order[t] < order[s]
  }

  class Checker {
    const T: Table
    ghost const all: set<Symbol>         // every symbol of the table
    var check: set<Symbol>               // SYMBOL_CHECK: on the way down to where the search is
    var checked: set<Symbol>             // SYMBOL_CHECKED
    var errors: nat                      // zconfnerrs
    ghost var order: map<Symbol, nat>    // when a symbol was finished
    ghost var clock: nat
    ghost var cycle: seq<Symbol>         // one cycle, once an error has been counted

    /** With nothing reported yet, every finished symbol has only finished symbols below it. */
    ghost predicate Inv()
      reads this
    {
      check <= checked <= all &&
      (forall s, t | s in all && t in Edges(T, s) :: t in all) &&
      (errors > 0 ==> IsCycle(T, cycle))
    }

    ghost predicate Clean()
      reads this
    {
      errors == 0 ==> Finished(T, checked - check, order, clock)
    }

    /** Unless an error has been counted, all of `ts` have been finished. */
    ghost predicate Followed(ts: seq<Symbol>)
      reads this
    {
      errors == 0 ==> forall t | t in ts :: t in checked - check
    }

    /** What a step down and back up leaves as it was. */
    twostate predicate Unwound()
      reads this
    {
      check == old(check) && old(checked) <= checked && old(errors) <= errors
    }

    constructor (table: Table, ghost symbols: set<Symbol>)
      requires forall s, t | s in symbols && t in Edges(table, s) :: t in symbols
      ensures T == table && all == symbols && Inv() && Clean()
      ensures check == {} && checked == {} && errors == 0
    {
      T, all := table, symbols;
      check, checked, errors := {}, {}, 0;
      order, clock, cycle := map[], 0, [];
    }

    /** `sym_check_expr_deps`: stops at the first symbol that reports a cycle. */
    method CheckExpr(e: Expr, ghost from: Symbol) returns (found: Option<Symbol>, ghost path: seq<Symbol>)
      requires Inv() && Clean() && from in all && LooksInto(T, from, ExprSymbols(e))
      modifies this
      ensures Inv() && Unwound()
      ensures found.Some? ==> found.value in check && |path| >= 2 && IsPathFromTo(T, path, from, found.value)
      ensures found.None? ==> Clean() && Followed(ExprSymbols(e))
      decreases all - checked, 1, Nodes(e)
    {
      match e
      case Bin(_, l, r) =>
        found, path := CheckExpr(l, from);
        if found.None? {
          found, path := CheckExpr(r, from);
        }
      case Not(x) =>
        found, path := CheckExpr(x, from);
      case Comp(_, left, right) =>
        assert left in ExprSymbols(e) && right in ExprSymbols(e);
        found, path := CheckDeps(left);
        if found.Some? {
          ExtendPath(T, from, left, path, found.value);
          path := [from] + path;
          return;
        }
        found, path := CheckDeps(right);
        if found.Some? {
          ExtendPath(T, from, right, path, found.value);
          path := [from] + path;
        }
      case Sym(s) =>
        assert s in ExprSymbols(e);
        found, path := CheckDeps(s);
        if found.Some? {
          ExtendPath(T, from, s, path, found.value);
          path := [from] + path;
        }
    }

    method CheckCondition(e: Option<Expr>, ghost from: Symbol) returns (found: Option<Symbol>, ghost path: seq<Symbol>)
      requires Inv() && Clean() && from in all && LooksInto(T, from, OptSymbols(e))
      modifies this
      ensures Inv() && Unwound()
      ensures found.Some? ==> found.value in check && |path| >= 2 && IsPathFromTo(T, path, from, found.value)
      ensures found.None? ==> Clean() && Followed(OptSymbols(e))
      decreases all - checked, 2
    {
      found, path := None, [];
      if e.Some? {
        found, path := CheckExpr(e.value, from);
      }
    }

    /** `sym_check_sym_deps` */
    method CheckSymDeps(s: Symbol) returns (found: Option<Symbol>, ghost path: seq<Symbol>)
      requires Inv() && Clean() && s in all
      modifies this
      ensures Inv() && Unwound()
      ensures found.Some? ==> found.value in check && |path| >= 2 && IsPathFromTo(T, path, s, found.value)
      ensures found.None? ==> Clean() && Followed(Edges(T, s))
      decreases all - checked, 5
    {
      found, path := None, [];
      if !s.Named? {
        return;
      }
      var d := T.defs(s);
      found, path := CheckCondition(d.revDep, s);
      if found.Some? {
        return;
      }
      found, path := CheckProps(d.props, s);
    }

    method CheckProps(props: seq<Property>, ghost s: Symbol) returns (found: Option<Symbol>, ghost path: seq<Symbol>)
      requires Inv() && Clean() && s in all && LooksInto(T, s, CheckedInProps(props))
      modifies this
      ensures Inv() && Unwound()
      ensures found.Some? ==> found.value in check && |path| >= 2 && IsPathFromTo(T, path, s, found.value)
      ensures found.None? ==> Clean() && Followed(CheckedInProps(props))
      decreases all - checked, 4
    {
      found, path := None, [];
      var i := 0;
      while i < |props|
        invariant i <= |props| && found.None? && Inv() && Clean() && Unwound()
        invariant LooksInto(T, s, CheckedInProps(props[i..]))
        invariant forall t | t in CheckedInProps(props) && t !in CheckedInProps(props[i..]) :: Followed([t])
      {
        var prop := props[i];
        NextProp(props, i);
        i := i + 1;
        if prop.Select? {
          continue;
        }
        found, path := CheckProp(prop, s);
        if found.Some? {
          return;
        }
      }
    }

    /** The visibility of a property, and what a default refers to. */
    method CheckProp(prop: Property, ghost s: Symbol) returns (found: Option<Symbol>, ghost path: seq<Symbol>)
      requires Inv() && Clean() && s in all && !prop.Select? && LooksInto(T, s, CheckedInProp(prop))
      modifies this
      ensures Inv() && Unwound()
      ensures found.Some? ==> found.value in check && |path| >= 2 && IsPathFromTo(T, path, s, found.value)
      ensures found.None? ==> Clean() && Followed(CheckedInProp(prop))
      decreases all - checked, 3
    {
      found, path := CheckCondition(prop.visible, s);
      if found.None? && prop.Default? {
        found, path := CheckExpr(prop.value, s);
      }
    }

    /** `sym_check_deps`: the symbol whose cycle has been entered and not yet closed, if any. */
    method CheckDeps(s: Symbol) returns (found: Option<Symbol>, ghost path: seq<Symbol>)
      requires Inv() && Clean() && s in all
      modifies this
      ensures Inv() && Unwound()
      ensures found.Some? ==> found.value in check && IsPathFromTo(T, path, s, found.value)
      ensures found.None? ==> Clean() && (errors == 0 ==> s in checked - check)
      decreases all - checked, 0
    {
      path := [s];
      if s in check {
        return Some(s), path;
      }
      if s in checked {
        return None, path;
      }
      check, checked := check + {s}, checked + {s};
      assert checked - check == old(checked) - old(check);
      found, path := CheckSymDeps(s);
      check := check - {s};
      if found.None? {
        order, clock := order[s := clock], clock + 1;
      } else if found.value == s {
        errors := errors + 1;
        cycle := path;
        found := None;
      }
    }

    /** Started from every symbol: an error is counted just when there is a cycle. */
    method CheckAll(symbols: seq<Symbol>)
      requires Inv() && Clean() && check == {} && errors == 0
      requires forall s :: s in symbols <==> s in all
      requires forall s: Symbol | Edges(T, s) != [] :: s in all
      modifies this
      ensures Inv() && Clean() && check == {}
      ensures errors > 0 <==> HasCycle(T)
      ensures errors == 0 ==> Finished(T, all, order, clock)
    {
      var i := 0;
      while i < |symbols|
        invariant i <= |symbols| && Inv() && Clean() && check == {}
        invariant errors == 0 ==> forall k | 0 <= k < i :: symbols[k] in checked
      {
        var found, _ := CheckDeps(symbols[i]);
        assert found.None?;
        i := i + 1;
      }
      if errors == 0 {
        assert checked - check == all;
        FinishedMeansNoCycle(T, all, order, clock);
      }
    }
  }

  // ----- what a clean search means -----

  /** Along a path the finishing times go down. */
  lemma {:induction false} FinishedOrdersPaths(T: Table, all: set<Symbol>, order: map<Symbol, nat>, clock: nat,
      p: seq<Symbol>)
    requires Finished(T, all, order, clock) && IsPath(T, p) && p[0] in all
    ensures p[|p| - 1] in all && (|p| >= 2 ==> order[p[|p| - 1]] < order[p[0]])
    decreases |p|
  {
    if |p| >= 2 {
      assert p[1] in Edges(T, p[0]);
      assert IsPath(T, p[1..]) by {
        forall i | 0 <= i < |p[1..]| - 1
          ensures p[1..][i + 1] in Edges(T, p[1..][i])
        {
          assert p[(i + 1) + 1] in Edges(T, p[i + 1]);
        }
      }
      FinishedOrdersPaths(T, all, order, clock, p[1..]);
    }
  }

  /** A clean search of a table rules out cycles, wherever they might be. */
  lemma FinishedMeansNoCycle(T: Table, all: set<Symbol>, order: map<Symbol, nat>, clock: nat)
    requires Finished(T, all, order, clock) && forall s: Symbol | Edges(T, s) != [] :: s in all
    ensures !HasCycle(T)
  {
    forall p | IsCycle(T, p)
      ensures false
    {
      assert p[1] in Edges(T, p[0]);
      FinishedOrdersPaths(T, all, order, clock, p);
    }
  }

  // ----- the graph the evaluator goes by -----

  predicate IsRefPath(T: Table, p: seq<Symbol>) {
    |p| >= 1 && forall i | 0 <= i < |p| - 1 :: p[i + 1] in Refs(T, p[i])
  }

  predicate IsRefPathFromTo(T: Table, p: seq<Symbol>, s: Symbol, t: Symbol) {
    IsRefPath(T, p) && p[0] == s && p[|p| - 1] == t
  }

  /** Working out `s` may come to asking for `t`. */
  ghost predicate LeadsTo(T: Table, s: Symbol, t: Symbol) {
    exists p :: IsRefPathFromTo(T, p, s, t)
  }

  function BoundsOfProps(props: seq<Property>): seq<Symbol> {
    if props == [] then []
    else (if props[0].Range? then [props[0].low, props[0].high] else []) + BoundsOfProps(props[1..])
  }

  /** The bounds of ranges, which the search does not look into. */
  function Bounds(T: Table, s: Symbol): seq<Symbol> {
    if s.Named? then BoundsOfProps(T.defs(s).props) else []
  }

  /** A range bound leads back to the symbol it bounds. */
  ghost predicate BoundLeadsBack(T: Table) {
    exists s: Symbol, t: Symbol :: t in Bounds(T, s) && LeadsTo(T, t, s)
  }

  lemma {:induction false} PropsRefs(props: seq<Property>, t: Symbol)
    ensures t in PropsSymbols(props) <==> t in CheckedInProps(props) || t in BoundsOfProps(props)
  {
    if props != [] {
      PropsRefs(props[1..], t);
    }
  }

  /** The evaluator goes by what the search looks into and by range bounds. */
  lemma RefsAreEdgesAndBounds(T: Table, s: Symbol, t: Symbol)
    ensures t in Refs(T, s) <==> t in Edges(T, s) || t in Bounds(T, s)
  {
    if s.Named? {
      PropsRefs(T.defs(s).props, t);
    }
  }

  lemma PrependToPath(T: Table, s: Symbol, p: seq<Symbol>)
    requires IsRefPath(T, p) && p[0] in Refs(T, s)
    ensures IsRefPath(T, [s] + p)
  {
  }

  lemma PrependRef(T: Table, s: Symbol, t: Symbol, u: Symbol)
    requires t in Refs(T, s) && LeadsTo(T, t, u)
    ensures LeadsTo(T, s, u)
  {
    var p :| IsRefPathFromTo(T, p, t, u);
    PrependToPath(T, s, p);
    assert IsRefPathFromTo(T, [s] + p, s, u);
  }

  lemma PartOfRefPath(T: Table, p: seq<Symbol>, lo: nat, hi: nat)
    requires IsRefPath(T, p) && lo < hi <= |p|
    ensures IsRefPath(T, p[lo..hi])
  {
    forall i | 0 <= i < hi - lo - 1
      ensures p[lo..hi][i + 1] in Refs(T, p[lo..hi][i])
    {
      assert p[(lo + i) + 1] in Refs(T, p[lo + i]);
    }
  }

  lemma {:induction false} LeadsOn(T: Table, p: seq<Symbol>, u: Symbol)
    requires IsRefPath(T, p) && LeadsTo(T, p[|p| - 1], u)
    ensures LeadsTo(T, p[0], u)
    decreases |p|
  {
    if |p| >= 2 {
      PartOfRefPath(T, p, 1, |p|);
      LeadsOn(T, p[1..], u);
      assert p[0 + 1] in Refs(T, p[0]);
      PrependRef(T, p[0], p[1], u);
    }
  }

  /** A cycle, begun at its `i`-th symbol. */
  lemma Rotate(T: Table, p: seq<Symbol>, i: nat)
    requires IsRefPath(T, p) && p[0] == p[|p| - 1] && i < |p| - 1
    ensures LeadsTo(T, p[i + 1], p[i])
  {
    PartOfRefPath(T, p, 0, i + 1);
    assert IsRefPathFromTo(T, p[0..i + 1], p[0], p[i]);
    PartOfRefPath(T, p, i + 1, |p|);
    LeadsOn(T, p[i + 1..|p|], p[i]);
  }

  /** After a clean search every cycle goes through a range bound. */
  lemma CycleHasBound(T: Table, all: set<Symbol>, order: map<Symbol, nat>, clock: nat, p: seq<Symbol>)
    requires Finished(T, all, order, clock) && forall s: Symbol | Refs(T, s) != [] :: s in all
    requires |p| >= 2 && IsRefPath(T, p) && p[0] == p[|p| - 1]
    ensures BoundLeadsBack(T)
  {
    if i :| 0 <= i < |p| - 1 && p[i + 1] in Bounds(T, p[i]) {
      Rotate(T, p, i);
    } else {
      forall i | 0 <= i < |p| - 1
        ensures p[i + 1] in Edges(T, p[i])
      {
        RefsAreEdgesAndBounds(T, p[i], p[i + 1]);
      }
      forall s: Symbol | Edges(T, s) != []
        ensures s in all
      {
        RefsAreEdgesAndBounds(T, s, Edges(T, s)[0]);
      }
      FinishedMeansNoCycle(T, all, order, clock);
      assert IsCycle(T, p);
      assert false;
    }
  }

  /** The symbols that working out `s` may come to asking for. */
  ghost function Below(T: Table, all: set<Symbol>, s: Symbol): set<Symbol> {
    set u | u in all && exists t :: t in Refs(T, s) && LeadsTo(T, t, u)
  }

  lemma BelowIsLess(T: Table, all: set<Symbol>, s: Symbol, t: Symbol)
    requires t in Refs(T, s)
    ensures Below(T, all, t) <= Below(T, all, s) && (t in all ==> t in Below(T, all, s))
  {
    forall u | u in Below(T, all, t)
      ensures u in Below(T, all, s)
    {
      var v :| v in Refs(T, t) && LeadsTo(T, v, u);
      PrependRef(T, t, v, u);
    }
    assert IsRefPathFromTo(T, [t], t, t);
  }

  lemma NotBelowItself(T: Table, all: set<Symbol>, order: map<Symbol, nat>, clock: nat, t: Symbol)
    requires Finished(T, all, order, clock) && !BoundLeadsBack(T)
    requires forall u: Symbol | Refs(T, u) != [] :: u in all
    ensures t !in Below(T, all, t)
  {
    if t in Below(T, all, t) {
      var v :| v in Refs(T, t) && LeadsTo(T, v, t);
      var p :| IsRefPathFromTo(T, p, v, t);
      PrependToPath(T, t, p);
      CycleHasBound(T, all, order, clock, [t] + p);
    }
  }

  lemma StrictlyFewer(small: set<Symbol>, large: set<Symbol>)
    requires small < large
    ensures |small| < |large|
  {
    assert large == small + (large - small);
    assert |large| == |small| + |large - small|;
    assert large - small != {};
  }

  /** A clean search is what the evaluator needs, provided no range bound leads back to the symbol it
      bounds: each symbol can be ranked by how many it may ask for. */
  lemma FinishedRanks(T: Table, all: set<Symbol>, order: map<Symbol, nat>, clock: nat) returns (rank: Symbol -> nat)
    requires Finished(T, all, order, clock) && !BoundLeadsBack(T)
    requires forall s: Symbol | Refs(T, s) != [] :: s in all
    ensures Ranked(T, rank)
  {
    rank := (s: Symbol) => if Refs(T, s) == [] then 0 else 1 + |Below(T, all, s)|;
    forall s: Symbol, t: Symbol | t in Refs(T, s)
      ensures rank(t) < rank(s)
    {
      if Refs(T, t) != [] {
        BelowIsLess(T, all, s, t);
        NotBelowItself(T, all, order, clock, t);
        StrictlyFewer(Below(T, all, t), Below(T, all, s));
      }
    }
  }

  /** A ranking goes down along every path of the evaluator. */
  lemma {:induction false} RankedPathsDescend(T: Table, rank: Symbol -> nat, p: seq<Symbol>)
    requires Ranked(T, rank) && IsRefPath(T, p)
    ensures rank(p[|p| - 1]) <= rank(p[0]) && (|p| >= 2 ==> rank(p[|p| - 1]) < rank(p[0]))
    decreases |p|
  {
    if |p| >= 2 {
      assert p[0 + 1] in Refs(T, p[0]);
      PartOfRefPath(T, p, 1, |p|);
      RankedPathsDescend(T, rank, p[1..]);
    }
  }

  /** Where the evaluator is specified, the search finds nothing. */
  lemma RankedMeansNoCycle(T: Table, rank: Symbol -> nat)
    requires Ranked(T, rank)
    ensures !HasCycle(T) && !BoundLeadsBack(T)
  {
    forall p | IsCycle(T, p)
      ensures false
    {
      forall i | 0 <= i < |p| - 1
        ensures p[i + 1] in Refs(T, p[i])
      {
        RefsAreEdgesAndBounds(T, p[i], p[i + 1]);
      }
      RankedPathsDescend(T, rank, p);
    }
    forall s: Symbol, t: Symbol | t in Bounds(T, s) && LeadsTo(T, t, s)
      ensures false
    {
      RefsAreEdgesAndBounds(T, s, t);
      var p :| IsRefPathFromTo(T, p, t, s);
      RankedPathsDescend(T, rank, p);
    }
  }

  /** What a clean search leaves open: the evaluator has an order to go by exactly if no range bound leads
      back to the symbol it bounds. */
  lemma RankingExactlyWhen(T: Table, all: set<Symbol>, order: map<Symbol, nat>, clock: nat)
    requires Finished(T, all, order, clock)
    requires forall s: Symbol | Refs(T, s) != [] :: s in all
    ensures (exists rank: Symbol -> nat :: Ranked(T, rank)) <==> !BoundLeadsBack(T)
  {
    if BoundLeadsBack(T) {
      forall rank: Symbol -> nat
        ensures !Ranked(T, rank)
      {
        if Ranked(T, rank) {
          RankedMeansNoCycle(T, rank);
        }
      }
    } else {
      var rank := FinishedRanks(T, all, order, clock);
    }
  }

  /** Then the equations of the evaluator have one solution, and only one. */
  lemma CleanSearchHasOneSolution(T: Table, all: set<Symbol>, order: map<Symbol, nat>, clock: nat)
    requires Finished(T, all, order, clock) && !BoundLeadsBack(T)
    requires forall s: Symbol | Refs(T, s) != [] :: s in all
    ensures exists a: Assignment :: (Solves(T, a) && WellTyped(a) &&
      forall b: Assignment, s: Symbol | Solves(T, b) :: b(s) == a(s))
  {
    var rank := FinishedRanks(T, all, order, clock);
    SolutionSolves(T, rank);
    SolutionsAreWellTyped(T, Solution(T, rank));
    forall b: Assignment, s: Symbol | Solves(T, b)
      ensures b(s) == Solution(T, rank)(s)
    {
      SolutionIsUnique(T, rank, b, s);
    }
  }

  // ----- two symbols that bound each other -----

  /** `s` and `t` bound each other's range, and there is nothing else in the table. */
  ghost predicate BoundEachOther(T: Table, s: Symbol, t: Symbol) {
    s.Named? && t.Named? &&
    T.defs(s).props == [Range(None, t, t)] && T.defs(t).props == [Range(None, s, s)] &&
    forall u: Symbol | u.Named? :: T.defs(u).revDep == None && (u != s && u != t ==> T.defs(u).props == [])
  }

  lemma OnlyProperty(p: Property)
    ensures PropsSymbols([p]) == PropSymbols(p)
    ensures CheckedInProps([p]) == CheckedInProp(p)
    ensures BoundsOfProps([p]) == if p.Range? then [p.low, p.high] else []
  {
    assert [p][1..] == [];
  }

  lemma PathHasEdge(T: Table, p: seq<Symbol>)
    requires IsCycle(T, p)
    ensures exists u: Symbol :: Edges(T, u) != []
  {
    assert p[0 + 1] in Edges(T, p[0]);
  }

  /** The search sees nothing, but each leads back to itself. */
  lemma RangeCycleGoesUnseen(T: Table, s: Symbol, t: Symbol)
    requires BoundEachOther(T, s, t)
    ensures !HasCycle(T) && BoundLeadsBack(T) && !exists rank: Symbol -> nat :: Ranked(T, rank)
  {
    OnlyProperty(Range(None, t, t));
    OnlyProperty(Range(None, s, s));
    forall u: Symbol
      ensures Edges(T, u) == []
    {
    }
    if p :| IsCycle(T, p) {
      PathHasEdge(T, p);
    }
    assert t in Bounds(T, s) && s in Refs(T, t);
    assert IsRefPathFromTo(T, [t, s], t, s);
    forall rank: Symbol -> nat
      ensures !Ranked(T, rank)
    {
      if Ranked(T, rank) {
        RankedMeansNoCycle(T, rank);
      }
    }
  }

  /** Both symbols hold `text`, and every other what its own equation says. */
  function Holding(T: Table, s: Symbol, t: Symbol, text: string): Assignment {
    (u: Symbol) =>
      if u == s || u == t then SymVal(NO, text) else Seen(u, Equation(T, u, (_: Symbol) => SymVal(NO, "")))
  }

  /** Any text is a solution that reads as no less than the empty one and formats back to itself. */
  lemma HoldingSolves(T: Table, s: Symbol, t: Symbol, text: string)
    requires BoundEachOther(T, s, t) && TypeOf(s) == Int && TypeOf(t) == Int
    requires !T.defs(s).hasUser && !T.defs(t).hasUser
    requires text == "" || (T.strtol(text, 10) > T.strtol("", 10) && T.formatInt(T.strtol(text, 10)) == text)
    ensures Solves(T, Holding(T, s, t, text))
  {
    var a := Holding(T, s, t, text);
    forall u: Symbol
      ensures a(u) == Seen(u, Equation(T, u, a))
    {
      if u == s || u == t {
        BoundedHolds(T, u, if u == s then t else s, a, text);
      } else {
        EquationAgrees(T, u, (_: Symbol) => SymVal(NO, ""), a);
      }
    }
  }

  lemma OnlyARange(v: Symbol, a: Assignment)
    ensures var props := [Range(None, v, v)];
      PromptsValue(props, a) == NO && FirstDefault(props, a) == None && FirstRange(props, a) == Some(props[0])
  {
    var props := [Range(None, v, v)];
    assert props[1..] == [] && props[0].Range? && ValueOrYes(props[0].visible, a) == YES;
  }

  lemma BoundedHolds(T: Table, u: Symbol, v: Symbol, a: Assignment, text: string)
    requires u.Named? && TypeOf(u) == Int && TypeOf(v) == Int && a(v) == SymVal(NO, text)
    requires T.defs(u).props == [Range(None, v, v)] && T.defs(u).revDep == None && !T.defs(u).hasUser
    requires text == "" || (T.strtol(text, 10) > T.strtol("", 10) && T.formatInt(T.strtol(text, 10)) == text)
    ensures Seen(u, Equation(T, u, a)) == SymVal(NO, text)
  {
    OnlyARange(v, a);
    assert TextValue(T, u, a) == text;
  }

  /** So their values are not determined: both empty is a solution, and so is both one above that. */
  lemma RangeCycleHasTwoSolutions(T: Table, s: Symbol, t: Symbol) returns (a: Assignment, b: Assignment)
    requires BoundEachOther(T, s, t) && TypeOf(s) == Int && TypeOf(t) == Int
    requires !T.defs(s).hasUser && !T.defs(t).hasUser
    requires ReadsBack(T, s, T.strtol("", 10) + 1)
    ensures Solves(T, a) && Solves(T, b) && a(s) != b(s) && a(t) != b(t)
  {
    var text := T.formatInt(T.strtol("", 10) + 1);
    assert T.strtol(text, 10) == T.strtol("", 10) + 1;
    a, b := Holding(T, s, t, ""), Holding(T, s, t, text);
    HoldingSolves(T, s, t, "");
    HoldingSolves(T, s, t, text);
  }
}
