/** Re-nesting of the menu tree (`menu_finalize`, at91bootstrap/config/menu.c:241-408) and the walk over it that
    does without recursion (at91bootstrap/config/confdata.c:497-551, 630-667). */
module Menu {
  import opened KconfigCommon
  import opened KconfigExpr
  import opened KconfigMenuDeps
  import opened KconfigTransform
  import opened MenuBuilding
  import opened MenuLinks
  import opened Wrappers

  /** The dependency of an entry, and the visibility of its prompt if it has one. */
  datatype Conditions = Conditions(dep: Option<Expr>, prompt: Option<Option<Expr>>)

  /** What `menu_finalize` makes of the conditions of an entry (lines 281-297). */
  function Inherited(c: Conditions, parentDep: Option<Expr>, tristate: bool): Conditions {
    var dep := PropagatedDep(parentDep, c.dep);
    Conditions(dep, if c.prompt.None? then None else Some(PropagatedVisibility(dep, c.prompt.value, tristate)))
  }

  /** The condition that decides whether an entry nests (line 317). */
  function Governing(c: Conditions): Option<Expr> {
    if c.prompt.Some? then c.prompt.value else c.dep
  }

  /** The visibility of the prompt (line 312). */
  function Visibility(c: Conditions): Option<Expr> {
    if c.prompt.Some? then c.prompt.value else None
  }

  ghost predicate SameConditions(c: seq<Conditions>, c': seq<Conditions>, lo: nat, hi: nat) {
    |c| == |c'| && lo <= hi <= |c| &&
    forall i: nat {:trigger Entry(i)} | Entry(i) && lo <= i < hi :: c'[i] == c[i]
  }

  ghost predicate Nests(s: Symbol, c: seq<Conditions>, p: nat, i: nat)
    requires p < |c| && i < |c|
  {
    NestsUnder(s, Visibility(c[p]), Governing(c[i]))
  }

  /** What `menu_finalize` stores with an entry: its dependency says whether the menu around it and the entry
      itself allow it, its prompt whether that and the prompt do, wherever these are definite. */
  lemma InheritedIsConjunction(c: Conditions, parentDep: Option<Expr>, tristate: bool, a: Assignment)
    requires WellTyped(a) && NoTestBelowNotOrNull(parentDep)
    ensures var r := Inherited(c, parentDep, tristate);
      var around, own := ValueOrYes(parentDep, a), ValueOrYes(c.dep, a);
      (around != MOD && own != MOD ==> ValueOrYes(r.dep, a) == ApplyOp(AND, around, own)) &&
      (r.prompt.Some? <==> c.prompt.Some?) &&
      (c.prompt.Some? && around != MOD && own != MOD && ValueOrYes(c.prompt.value, a) != MOD ==>
        (ValueOrYes(r.prompt.value, a) != NO <==> around == own == ValueOrYes(c.prompt.value, a) == YES))
  {
    PropagatedDepIsConjunction(parentDep, c.dep, a);
    if c.prompt.Some? {
      PropagatedVisibilityIsConjunction(parentDep, c.dep, c.prompt.value, tristate, a);
    }
  }

  /** The condition under which an entry is there: that of its prompt, or without one its dependency. It is nested as
      soon as a conjunct of that condition tests that the symbol is set, and not if the condition does not
      mention the symbol. */
  lemma NestsByItsCondition(s: Symbol, c: seq<Conditions>, p: nat, i: nat, e: Expr)
    requires p < |c| && i < |c| && if c[i].prompt.Some? then c[i].prompt.value == Some(e) else c[i].dep == Some(e)
    ensures (exists x :: x in Operands(AND, e) && IsSetTest(x, s)) ==> Nests(s, c, p, i)
    ensures Nests(s, c, p, i) ==> ContainsSymbol(e, s)
    ensures c[p].prompt.None? || c[p].prompt.value.None? ==> (Nests(s, c, p, i) <==> ContainsSymbol(e, s))
  {
    NestsWhenever(s, Visibility(c[p]), e);
    ContainsExactlyWhen(e, s);
  }

  /** A nested entry is not there while the symbol is off and its prompt hidden. */
  lemma NestedIsJustified(s: Symbol, c: seq<Conditions>, p: nat, i: nat, e: Expr, a: Assignment)
    requires p < |c| && i < |c| && if c[i].prompt.Some? then c[i].prompt.value == Some(e) else c[i].dep == Some(e)
    requires WellTyped(a) && Nests(s, c, p, i) && TypeOf(s) in {Boolean, Tri}
    requires LogicalSymbols(e) && NegatesTwoValued(e, a)
    requires c[p].prompt.Some? && c[p].prompt.value.Some? ==>
      LogicalSymbols(c[p].prompt.value.value) && NegatesTwoValued(c[p].prompt.value.value, a)
    ensures Value(e, a) == NO || a(s).tri != NO || c[p].prompt.None? || ValueOrYes(c[p].prompt.value, a) != NO
  {
    if Value(e, a) != NO {
      NestingIsJustified(s, Visibility(c[p]), Some(e), a);
    }
  }

  /** Every entry that has become an entry of `p` depends on the symbol of `p`. */
  ghost predicate Nesting(s: Symbol, c: seq<Conditions>, m: Links, p: nat, hi: nat)
    requires Sized(m) && |c| == |m.end| && p < hi <= |c|
  {
    forall i: nat {:trigger Entry(i)} | Entry(i) && p < i < hi && m.parent[i] == p :: Nests(s, c, p, i)
  }

  /** `p`, with symbol `s`, has taken the entries before `at`. */
  ghost predicate Gathering(s: Symbol, titled: set<nat>, m: Links, c: seq<Conditions>, m': Links, c': seq<Conditions>,
                            p: nat, at: nat, hi: nat, owner: int)
  {
    Taking(m, m', p, at, hi, owner) && |c'| == |m'.end| &&
    Trimmed(m', titled, p + 1, at, p) && Nesting(s, c', m', p, at) &&
    SameConditions(c, c', 0, p + 1) && SameConditions(c, c', at, |c|)
  }

  /** What `menu_finalize` does to the entry `at`, and `p` becoming its parent. */
  lemma GatherStep(s: Symbol, titled: set<nat>, m: Links, c: seq<Conditions>, was: Links, wasC: seq<Conditions>,
                   mid: Links, now: Links, nowC: seq<Conditions>, p: nat, at: nat, hi: nat, owner: int)
    requires Gathering(s, titled, m, c, was, wasC, p, at, hi, owner) && owner < p && at < hi
    requires Nests(s, wasC, p, at)
    requires Forest(mid, at, hi, owner, hi) && AllTrimmed(mid, titled, at + 1, mid.end[at])
    requires SameOn(was, mid, 0, at) && SameOn(was, mid, mid.end[at], |was.end|)
    requires SameConditions(wasC, nowC, 0, at + 1) && SameConditions(wasC, nowC, mid.end[at], |wasC|)
    requires now == mid.(parent := mid.parent[at := p])
    ensures at < now.end[at] <= hi && now.next[at] == if now.end[at] < hi then now.end[at] else NULL
    ensures Gathering(s, titled, m, c, now, nowC, p, now.end[at], hi, owner)
  {
    TakeStep(m, was, mid, now, p, at, hi, owner);
    StillTrimmed(titled, was, mid, now, p, at);
    StillNesting(s, was, wasC, mid, now, nowC, p, at, hi, owner);
  }

  lemma StillTrimmed(titled: set<nat>, was: Links, mid: Links, now: Links, p: nat, at: nat)
    requires Sized(was) && p < at < |was.end| && Trimmed(was, titled, p + 1, at, p) && SameOn(was, mid, 0, at)
    requires Sized(mid) && |mid.end| == |was.end| && at < mid.end[at] <= |mid.end|
    requires AllTrimmed(mid, titled, at + 1, mid.end[at]) && now == mid.(parent := mid.parent[at := p])
    ensures Trimmed(now, titled, p + 1, mid.end[at], p)
  {
    TrimmedFurther(now, titled, p + 1, at, mid.end[at], p);
  }

  lemma StillNesting(s: Symbol, was: Links, wasC: seq<Conditions>, mid: Links, now: Links, nowC: seq<Conditions>,
                     p: nat, at: nat, hi: nat, owner: int)
    requires Sized(was) && |wasC| == |was.end| == |nowC| && p < at < hi <= |wasC| && Nesting(s, wasC, was, p, at)
    requires Nests(s, wasC, p, at) && owner < p && Forest(mid, at, hi, owner, hi)
    requires SameOn(was, mid, 0, at) && SameConditions(wasC, nowC, 0, at + 1)
    requires now == mid.(parent := mid.parent[at := p])
    ensures at < mid.end[at] <= hi && Nesting(s, nowC, now, p, mid.end[at])
  {
    Split(mid, at, hi, owner, hi);
    Inside(mid, at, owner, hi);
    assert Entry(p) && Entry(at);
    forall i: nat {:trigger Entry(i)} | Entry(i) && at < i < mid.end[at]
      ensures now.parent[i] != p
    {
      assert HeldBy(mid, at + 1, at, i);
    }
    forall i: nat {:trigger Entry(i)} | Entry(i) && p < i < mid.end[at] && now.parent[i] == p
      ensures Nests(s, nowC, p, i)
    {
      assert Nests(s, wasC, p, i);
    }
  }

  class MenuTree {
    const sym: seq<Option<Symbol>>
    const choice: set<nat>
    /** The entries whose prompt has a text. */
    const titled: set<nat>
    var next: seq<int>
    var list: seq<int>
    var parent: seq<int>
    var cond: seq<Conditions>
    ghost var end: seq<nat>

    ghost function Links(): Links
      reads this
    {
      MenuLinks.Links.Links(next, list, parent, end)
    }

    ghost predicate Valid()
      reads this
    {
      Sized(Links()) && |sym| == |cond| == |next|
    }

    /** The tree as the parser leaves it, with what it has recorded for each entry. */
    constructor (b: MenuBuilder, symbols: seq<Option<Symbol>>, choices: set<nat>, titles: set<nat>,
        conditions: seq<Conditions>)
      requires b.Valid() && |symbols| == |conditions| == |b.next|
      ensures WellLinked() && next == b.next && list == b.list && parent == b.parent
      ensures sym == symbols && choice == choices && titled == titles && cond == conditions
    {
      sym, choice, titled, cond := symbols, choices, titles, conditions;
      next, list, parent, end := b.next, b.list, b.parent, b.end;
    }

    /** What is passed down to the entries of `p` (lines 273-278). */
    function ParentDep(p: nat): Option<Expr>
      requires Valid() && p < |next|
      reads this
    {
      if sym[p].Some? && p in choice then Some(Sym(sym[p].value))
      else if cond[p].prompt.Some? then cond[p].prompt.value
      else cond[p].dep
    }

    /** `expr_trans_bool` is for entries of a symbol that is not tristate only. */
    predicate KeepsModules(menu: nat)
      requires menu < |sym|
    {
      sym[menu].None? || TypeOf(sym[menu].value) == Tri
    }

    /** First round over the list of `p`: the entries on it, and no others, take in what `p` passes
        down. */
    method PassDown(p: nat, ghost hi: nat)
      requires Valid() && p < |next| && p + 1 < hi && list[p] == p + 1
      requires Forest(Links(), p + 1, hi, p, hi)
      modifies this`cond
      ensures Valid()
      ensures SameConditions(old(cond), cond, 0, p + 1) && SameConditions(old(cond), cond, hi, |next|)
      ensures forall i: nat {:trigger Entry(i)} | Entry(i) && p < i < hi ::
        cond[i] == if parent[i] == p then Inherited(old(cond)[i], old(ParentDep(p)), KeepsModules(i)) else old(cond)[i]
    {
      var parentDep := ParentDep(p);
      var menu := list[p];
      ghost var at: nat := p + 1;
      while menu != NULL
        invariant Valid() && p < at <= hi && menu == (if at < hi then at else NULL)
        invariant Forest(Links(), at, hi, p, hi)
        invariant SameConditions(old(cond), cond, 0, p + 1) && SameConditions(old(cond), cond, at, |next|)
        invariant forall i: nat {:trigger Entry(i)} | Entry(i) && p < i < at ::
          cond[i] == if parent[i] == p then Inherited(old(cond)[i], parentDep, KeepsModules(i)) else old(cond)[i]
        decreases hi - at
      {
        Split(Links(), at, hi, p, hi);
        Inside(Links(), at, p, hi);
        assert Entry(at);
        cond := cond[menu := Inherited(cond[menu], parentDep, KeepsModules(menu))];
        at := end[at];
        menu := next[menu];
      }
    }

    /** `menu_finalize`. The list from `p` on may lose entries to `p`; what comes after the last of
        these, and what comes before `p`, is as it was. Of what `p` then holds, only entries with a
        title hold anything. */
    method Finalize(p: nat, ghost hi: nat, ghost owner: int)
      requires Valid() && p < hi <= |next| && Forest(Links(), p, hi, owner, hi)
      modifies this`next, this`list, this`parent, this`cond, this`end
      ensures Valid() && |next| == |old(next)|
      ensures Forest(Links(), p, hi, owner, hi)
      ensures old(end[p]) <= end[p]
      ensures AllTrimmed(Links(), titled, p + 1, end[p])
      ensures old(list[p]) == NULL && sym[p].Some? && end[p] < hi ==> !Nests(sym[p].value, cond, p, end[p])
      ensures old(list[p]) != NULL || sym[p].None? ==> end[p] == old(end[p])
      ensures SameOn(old(Links()), Links(), 0, p) && SameOn(old(Links()), Links(), end[p], |next|)
      ensures SameConditions(old(cond), cond, 0, p + 1) && SameConditions(old(cond), cond, end[p], |next|)
      decreases |next| - p, 2
    {
      ghost var m := Links();
      Split(m, p, hi, owner, hi);
      if list[p] != NULL {
        Inside(m, p, owner, hi);
        PassDown(p, end[p]);
        FinalizeList(p, end[p]);
        assert Entry(p);
        Wrap(Links(), p, owner, hi);
        ForestIsLocal(m, Links(), m.end[p], hi, owner, hi);
        Append(Links(), p, end[p], hi, owner, hi);
      } else if sym[p].Some? {
        Gather(p, hi, owner);
      }
      FlattenBelow(p, hi, owner);
    }

    method FlattenBelow(p: nat, ghost hi: nat, ghost owner: int)
      requires Valid() && p < hi <= |next| && Forest(Links(), p, hi, owner, hi)
      requires Trimmed(Links(), titled, p + 1, end[p], p)
      modifies this`next, this`list, this`parent, this`end
      ensures Valid() && |next| == |old(next)| && end[p] == old(end[p])
      ensures Forest(Links(), p, hi, owner, hi)
      ensures AllTrimmed(Links(), titled, p + 1, end[p])
      ensures SameOn(old(Links()), Links(), 0, p) && SameOn(old(Links()), Links(), end[p], |next|)
    {
      ghost var m := Links();
      Split(m, p, hi, owner, hi);
      if list[p] != NULL {
        Inside(m, p, owner, hi);
        Flatten(p, end[p]);
        assert Entry(p);
        Wrap(Links(), p, owner, hi);
        ForestIsLocal(m, Links(), m.end[p], hi, owner, hi);
        Append(Links(), p, end[p], hi, owner, hi);
      }
    }

    /** Second round over the list of `p`: each entry on it is finalized. */
    method FinalizeList(p: nat, ghost hi: nat)
      requires Valid() && p + 1 < hi <= |next| && list[p] == p + 1
      requires Forest(Links(), p + 1, hi, p, hi)
      modifies this`next, this`list, this`parent, this`cond, this`end
      ensures Valid() && |next| == |old(next)|
      ensures Forest(Links(), p + 1, hi, p, hi) && Trimmed(Links(), titled, p + 1, hi, p)
      ensures SameOn(old(Links()), Links(), 0, p + 1) && SameOn(old(Links()), Links(), hi, |next|)
      ensures SameConditions(old(cond), cond, 0, p + 1) && SameConditions(old(cond), cond, hi, |next|)
      decreases |next| - p, 1
    {
      var menu := list[p];
      ghost var at: nat := p + 1;
      while menu != NULL
        invariant Valid() && |next| == |old(next)|
        invariant p < at <= hi && menu == (if at < hi then at else NULL)
        invariant Forest(Links(), p + 1, at, p, hi) && Forest(Links(), at, hi, p, hi)
        invariant Trimmed(Links(), titled, p + 1, at, p)
        invariant SameOn(old(Links()), Links(), 0, p + 1) && SameOn(old(Links()), Links(), hi, |next|)
        invariant SameConditions(old(cond), cond, 0, p + 1) && SameConditions(old(cond), cond, hi, |next|)
        decreases hi - at
      {
        ghost var was := Links();
        Finalize(menu, hi, p);
        ListStep(was, Links(), titled, p, at, hi);
        at := end[at];
        menu := next[menu];
      }
    }

    /** Third round over the list of `p`: an entry without a title hands its list over to `p`; all
        others hold what they held. */
    method Flatten(p: nat, ghost hi: nat)
      requires Valid() && p + 1 < hi <= |next| && list[p] == p + 1
      requires Forest(Links(), p + 1, hi, p, hi) && Trimmed(Links(), titled, p + 1, hi, p)
      modifies this`next, this`list, this`parent, this`end
      ensures Valid() && |next| == |old(next)|
      ensures Forest(Links(), p + 1, hi, p, hi)
      ensures forall i: nat {:trigger Entry(i)} | Entry(i) && p < i < hi ::
        end[i] == if i in titled then old(end[i]) else i + 1
      ensures SameOn(old(Links()), Links(), 0, p + 1) && SameOn(old(Links()), Links(), hi, |next|)
    {
      var menu := list[p];
      ghost var m, at: nat := Links(), p + 1;
      while menu != NULL
        invariant Valid() && |next| == |m.end|
        invariant p < at <= hi && menu == (if at < hi then at else NULL)
        invariant Flattening(m, Links(), titled, p, at, hi)
        decreases hi - at
      {
        ghost var was := Links();
        Split(was, at, hi, p, hi);
        if list[menu] != NULL && menu !in titled {
          HandOver(p, menu, hi);
        }
        FlattenStep(m, was, Links(), titled, p, at, hi);
        at := end[at];
        menu := next[menu];
      }
    }

    /** `p` becomes the parent of everything on the list of `menu`, and of nothing else. */
    method Adopt(p: nat, menu: nat) returns (last: nat)
      requires Valid() && p < menu < |next| && list[menu] == menu + 1 && menu + 1 < end[menu] <= |next|
      requires Forest(Links(), menu + 1, end[menu], menu, end[menu])
      modifies this`parent
      ensures Valid() && Forest(Links(), menu + 1, end[menu], p, end[menu])
      ensures SameOn(old(Links()), Links(), 0, menu + 1) && SameOn(old(Links()), Links(), end[menu], |next|)
      ensures forall i: nat {:trigger Entry(i)} | Entry(i) && i < |next| :: parent[i] in {p, old(parent)[i]}
      ensures menu < last < end[menu] && end[last] == end[menu] && parent[last] == p
    {
      ghost var m, after := Links(), end[menu];
      AdoptStart(m, p, menu, after);
      last := list[menu];
      while true
        invariant Valid() && menu < last < after
        invariant Adopting(m, Links(), p, menu, last, after)
        decreases after - last
      {
        ghost var was := Links();
        parent := parent[last := p];
        AdoptStep(m, was, Links(), p, menu, last, after);
        if next[last] == NULL { break; }
        last := next[last];
      }
    }

    /** The list of `menu` becomes part of the list `menu` is on (lines 383-392). */
    method HandOver(p: nat, menu: nat, ghost hi: nat)
      requires Valid() && p < menu < hi <= |next| && list[menu] != NULL
      requires Forest(Links(), menu, hi, p, hi)
      modifies this`next, this`list, this`parent, this`end
      ensures Valid() && |next| == |old(next)|
      ensures Forest(Links(), menu, hi, p, hi) && end == old(end)[menu := menu + 1]
      ensures forall i: nat {:trigger Entry(i)} | Entry(i) && i < |next| :: parent[i] in {p, old(parent)[i]}
      ensures SameOn(old(Links()), Links(), 0, menu) && SameOn(old(Links()), Links(), hi, |next|)
    {
      ghost var m, after := Links(), end[menu];
      Split(m, menu, hi, p, hi);
      Inside(m, menu, p, hi);
      var last := Adopt(p, menu);
      ghost var adopted := Links();
      assert Entry(menu) && parent[menu] == p;
      ForestIsLocal(m, adopted, after, hi, p, hi);
      next := next[last := next[menu]];
      next := next[menu := list[menu]];
      list := list[menu := NULL];
      end := end[menu := menu + 1];
      HandedOver(adopted, Links(), p, menu, last, after, hi);
    }

    /** An entry without a list of its own takes over the entries behind it that depend on its
        symbol, up to the first that does not (lines 311-342). */
    method Gather(p: nat, ghost hi: nat, ghost owner: int)
      requires Valid() && p < hi <= |next| && sym[p].Some? && list[p] == NULL
      requires Forest(Links(), p, hi, owner, hi)
      modifies this`next, this`list, this`parent, this`cond, this`end
      ensures Valid() && |next| == |old(next)|
      ensures Forest(Links(), p, hi, owner, hi)
      ensures p < end[p] <= hi && old(end[p]) <= end[p]
      ensures Trimmed(Links(), titled, p + 1, end[p], p)
      ensures Nesting(sym[p].value, cond, Links(), p, end[p])
      ensures end[p] < hi ==> !Nests(sym[p].value, cond, p, end[p])
      ensures SameOn(old(Links()), Links(), 0, p) && SameOn(old(Links()), Links(), end[p], |next|)
      ensures SameConditions(old(cond), cond, 0, p + 1) && SameConditions(old(cond), cond, end[p], |next|)
      decreases |next| - p, 1
    {
      ghost var m := Links();
      Split(m, p, hi, owner, hi);
      var lastMenu := GatherAll(p, hi, owner);
      assert Entry(p);
      if lastMenu == NULL {
        Wrap(Links(), p, owner, hi);
        Append(Links(), p, p + 1, hi, owner, hi);
      } else {
        ghost var gathered, at := Links(), end[lastMenu];
        TakeOver(p, lastMenu);
        Gathered(gathered, Links(), p, lastMenu, at, hi, owner);
      }
    }

    /** The entries behind `p` up to `lastMenu` become its list. */
    method TakeOver(p: nat, lastMenu: nat)
      requires Valid() && p < lastMenu < |next|
      modifies this`next, this`list, this`end
      ensures Valid() && list == old(list)[p := old(next[p])] && end == old(end)[p := old(end[lastMenu])]
      ensures next == old(next)[p := old(next[lastMenu])][lastMenu := NULL]
    {
      list := list[p := next[p]];
      next := next[p := next[lastMenu]];
      next := next[lastMenu := NULL];
      end := end[p := end[lastMenu]];
    }

    method GatherAll(p: nat, ghost hi: nat, ghost owner: int) returns (lastMenu: int)
      requires Valid() && owner < p < hi <= |next| && sym[p].Some? && end[p] == p + 1
      requires next[p] == if p + 1 < hi then p + 1 else NULL
      requires Forest(Links(), p + 1, hi, owner, hi)
      modifies this`next, this`list, this`parent, this`cond, this`end
      ensures Valid() && |next| == |old(next)|
      ensures lastMenu == NULL || (p < lastMenu < hi && lastMenu < end[lastMenu] <= hi)
      ensures var at := if lastMenu == NULL then p + 1 else end[lastMenu];
        Gathering(sym[p].value, titled, old(Links()), old(cond), Links(), cond, p, at, hi, owner) &&
        (at < hi ==> !Nests(sym[p].value, cond, p, at))
      ensures lastMenu != NULL ==>
        parent[lastMenu] == p && next[lastMenu] == if end[lastMenu] < hi then end[lastMenu] else NULL
      decreases |next| - p, 0
    {
      ghost var m, c, at := Links(), cond, p + 1;
      lastMenu := NULL;
      var menu := next[p];
      while menu != NULL
        invariant Valid() && |next| == |m.end|
        invariant p < at <= hi && menu == (if at < hi then at else NULL)
        invariant Gathering(sym[p].value, titled, m, c, Links(), cond, p, at, hi, owner)
        invariant lastMenu == NULL || p < lastMenu < at
        invariant if lastMenu == NULL then at == p + 1 else
          end[lastMenu] == at && parent[lastMenu] == p && next[lastMenu] == menu
        decreases hi - at
      {
        if !NestsUnder(sym[p].value, Visibility(cond[p]), Governing(cond[menu])) { break; }
        ghost var was, wasC := Links(), cond;
        Finalize(menu, hi, owner);
        ghost var mid := Links();
        parent := parent[menu := p];
        GatherStep(sym[p].value, titled, m, c, was, wasC, mid, Links(), cond, p, menu, hi, owner);
        lastMenu := menu;
        at := end[menu];
        menu := next[menu];
      }
    }

    /** The whole tree is well linked: the root menu holds everything. */
    ghost predicate WellLinked()
      reads this
    {
      Valid() && |next| > 0 && end[0] == |next| && Forest(Links(), 0, |next|, NULL, |next|)
    }

    /** The call after parsing (at91bootstrap/config/zconf.y:497). */
    method FinalizeRoot()
      requires WellLinked()
      modifies this`next, this`list, this`parent, this`cond, this`end
      ensures WellLinked() && |next| == |old(next)|
      ensures forall i | 0 < i < |next| && list[i] != NULL :: i in titled
    {
      Finalize(0, |next|, NULL);
      forall i: nat | 0 < i < |next| && list[i] != NULL
        ensures i in titled
      {
        assert Entry(i) && HeldBy(Links(), 0, NULL, i) && Linked(Links(), NULL, |next|, i);
      }
    }

    /** The loop of `conf_write` and `conf_write_defconfig`, with what is done for an entry left out:
        every entry is visited once, in the order of the files. */
    method Walk() returns (visited: seq<int>)
      requires WellLinked()
      ensures visited == seq(|next| - 1, i => i + 1)
    {
      visited := [];
      Split(Links(), 0, |next|, NULL, |next|);
      var menu := list[0];
      while menu != NULL
        invariant |visited| < |next| && visited == seq(|visited|, i => i + 1)
        invariant menu == if |visited| + 1 < |next| then |visited| + 1 else NULL
        decreases |next| - |visited|
      {
        visited := visited + [menu];
        menu := NextEntry(menu);
      }
    }

    /** The step of the walk: down, else on, else up to the first entry that has a next one. */
    method NextEntry(from: nat) returns (menu: int)
      requires WellLinked() && from < |next|
      ensures menu == if from + 1 < |next| then from + 1 else NULL
    {
      assert Entry(from) && HeldBy(Links(), 0, NULL, from) && Linked(Links(), NULL, |next|, from);
      if list[from] != NULL {
        return list[from];
      }
      menu := from;
      Climb(Links(), |next|, from, from);
      if next[menu] != NULL {
        return next[menu];
      }
      menu := parent[menu];
      while menu != NULL
        invariant menu == NULL ==> from + 1 == |next|
        invariant menu != NULL ==> 0 <= menu <= from && end[menu] == from + 1
        decreases menu
      {
        Climb(Links(), |next|, from, menu);
        if next[menu] != NULL {
          return next[menu];
        }
        menu := parent[menu];
      }
    }
  }
}
