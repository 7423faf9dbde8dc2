/** When the PEG engine comes to an end (canquick/peglib.h:924-1230): without left recursion, and with
    repetitions whose bodies always consume something, some fuel is enough for every parse. */
module PackratEnds {
  import opened Packrat
  import opened Wrappers

  /** What is known of a grammar: the rules that may match nothing, and a rank for each rule, below `top`. */
  datatype Analysis = Analysis(nulls: set<nat>, rank: seq<nat>, top: nat)

  predicate MayBeEmpty(n: Analysis, o: Ope) {
    match o
    case Literal(text) => text == ""
    case Class(_) => false
    case Any => false
    case Sequence(opes) => forall k | 0 <= k < |opes| :: MayBeEmpty(n, opes[k])
    case PrioritizedChoice(opes) => exists k | 0 <= k < |opes| :: MayBeEmpty(n, opes[k])
    case ZeroOrMore(_) => true
    case OneOrMore(x) => MayBeEmpty(n, x)
    case Opt(_) => true
    case AndPredicate(_) => true
    case NotPredicate(_) => true
    case Reference(id) => id in n.nulls
  }

  /** All operands before number `k` may match nothing. */
  predicate NothingBefore(n: Analysis, opes: seq<Ope>, k: nat)
    requires k <= |opes|
  {
    forall j | 0 <= j < k :: MayBeEmpty(n, opes[j])
  }

  /** Whatever is referred to before something has been consumed has a rank below `r`, everything else
      any rank; and the bodies of repetitions consume. */
  predicate Descends(n: Analysis, r: nat, o: Ope)
    decreases o
  {
    match o
    case Sequence(opes) =>
      forall k | 0 <= k < |opes| :: Descends(n, if NothingBefore(n, opes, k) then r else n.top, opes[k])
    case PrioritizedChoice(opes) => forall k | 0 <= k < |opes| :: Descends(n, r, opes[k])
    case ZeroOrMore(x) => !MayBeEmpty(n, x) && Descends(n, r, x)
    case OneOrMore(x) => !MayBeEmpty(n, x) && Descends(n, r, x)
    case Opt(x) => Descends(n, r, x)
    case AndPredicate(x) => Descends(n, r, x)
    case NotPredicate(x) => Descends(n, r, x)
    case Reference(id) => id < |n.rank| && n.rank[id] < r
    case _ => true
  }

  predicate WellFormed<V>(g: Grammar<V>, n: Analysis) {
    |n.rank| == |g.rules| &&
    forall id | 0 <= id < |g.rules| ::
      n.rank[id] < n.top && Descends(n, n.rank[id], g.rules[id].ope) &&
      (MayBeEmpty(n, g.rules[id].ope) ==> id in n.nulls)
  }

  lemma {:induction false} DescendsMore(n: Analysis, r: nat, r': nat, o: Ope)
    requires r <= r' && Descends(n, r, o)
    ensures Descends(n, r', o)
  {
    match o
    case Sequence(opes) =>
      forall k | 0 <= k < |opes|
        ensures Descends(n, if NothingBefore(n, opes, k) then r' else n.top, opes[k])
      {
        if NothingBefore(n, opes, k) {
          DescendsMore(n, r, r', opes[k]);
        }
      }
    case PrioritizedChoice(opes) =>
      forall k | 0 <= k < |opes|
        ensures Descends(n, r', opes[k])
      {
        DescendsMore(n, r, r', opes[k]);
      }
    case ZeroOrMore(x) => DescendsMore(n, r, r', x);
    case OneOrMore(x) => DescendsMore(n, r, r', x);
    case Opt(x) => DescendsMore(n, r, r', x);
    case AndPredicate(x) => DescendsMore(n, r, r', x);
    case NotPredicate(x) => DescendsMore(n, r, r', x);
    case _ =>
  }

  /** A rule may refer to itself behind something that consumes. */
  lemma RecursionBehindDescends(n: Analysis, r: nat, x: Ope, id: nat)
    requires Descends(n, r, x) && !MayBeEmpty(n, x) && id < |n.rank| && n.rank[id] < n.top
    ensures Descends(n, r, Sequence([x, Reference(id)])) && !MayBeEmpty(n, Sequence([x, Reference(id)]))
  {
    var opes := [x, Reference(id)];
    assert NothingBefore(n, opes, 0);
    assert opes[0] == x;
  }

  // ----- what matches nothing may be empty -----

  lemma {:induction false} EmptyMatch<V>(g: Grammar<V>, n: Analysis, input: string, f: nat, o: Ope, pos: nat,
      sv: Values<V>)
    requires WellFormed(g, n) && pos <= |input|
    requires Parse(g, input, f, o, pos, sv).Some? && Parse(g, input, f, o, pos, sv).value.len == Some(0)
    ensures MayBeEmpty(n, o)
    decreases f
  {
    match o
    case Sequence(opes) =>
      assert opes[0..] == opes;
      EmptySequence(g, n, input, f - 1, opes, 0, pos, Empty());
    case PrioritizedChoice(opes) => EmptyChoice(g, n, input, f - 1, opes, 0, pos, sv);
    case OneOrMore(x) =>
      var r := Parse(g, input, f - 1, x, pos, sv);
      ManyGrows(g, input, f - 1, x, pos, r.value.len.value, r.value.sv);
      EmptyMatch(g, n, input, f - 1, x, pos, sv);
    case Reference(id) =>
      EmptyMatch(g, n, input, f - 2, g.rules[id].ope, pos, Empty());
    case _ =>
  }

  lemma {:induction false} ManyGrows<V>(g: Grammar<V>, input: string, f: nat, x: Ope, pos: nat, i: nat, sv: Values<V>)
    requires pos + i <= |input| && ParseMany(g, input, f, x, pos, i, sv).Some?
    ensures var r := ParseMany(g, input, f, x, pos, i, sv).value; r.len.Some? && r.len.value >= i
    decreases f
  {
    if pos + i < |input| {
      var r := Parse(g, input, f - 1, x, pos + i, sv);
      if r.value.len.Some? {
        ManyGrows(g, input, f - 1, x, pos, i + r.value.len.value, r.value.sv);
      }
    }
  }

  lemma {:induction false} EmptySequence<V>(g: Grammar<V>, n: Analysis, input: string, f: nat, opes: seq<Ope>, k: nat,
      pos: nat, sv: Values<V>)
    requires WellFormed(g, n) && pos <= |input| && k <= |opes|
    requires ParseSequence(g, input, f, opes[k..], pos, sv).Some?
    requires ParseSequence(g, input, f, opes[k..], pos, sv).value.len == Some(0)
    ensures forall j | k <= j < |opes| :: MayBeEmpty(n, opes[j])
    decreases f
  {
    if k < |opes| {
      var r := Parse(g, input, f - 1, opes[k], pos, sv);
      assert opes[k..][0] == opes[k] && opes[k..][1..] == opes[k + 1..];
      EmptyMatch(g, n, input, f - 1, opes[k], pos, sv);
      EmptySequence(g, n, input, f - 1, opes, k + 1, pos, r.value.sv);
    }
  }

  lemma {:induction false} EmptyChoice<V>(g: Grammar<V>, n: Analysis, input: string, f: nat, opes: seq<Ope>, id: nat,
      pos: nat, sv: Values<V>)
    requires WellFormed(g, n) && pos <= |input|
    requires ParseChoice(g, input, f, opes, id, pos, sv).Some?
    requires ParseChoice(g, input, f, opes, id, pos, sv).value.len == Some(0)
    ensures exists k | 0 <= k < |opes| :: MayBeEmpty(n, opes[k])
    decreases f
  {
    if Parse(g, input, f - 1, opes[id], pos, Empty()).value.len.Some? {
      EmptyMatch(g, n, input, f - 1, opes[id], pos, Empty());
    } else {
      EmptyChoice(g, n, input, f - 1, opes, id + 1, pos, sv);
    }
  }

  // ----- some fuel is enough -----

  lemma {:induction false} Ends<V>(g: Grammar<V>, n: Analysis, input: string, r: nat, o: Ope, pos: nat,
      sv: Values<V>) returns (f: nat)
    requires WellFormed(g, n) && pos <= |input| && Descends(n, r, o) && r <= n.top
    ensures Parse(g, input, f, o, pos, sv).Some?
    decreases |input| - pos, r, o, 1, 0
  {
    match o
    case Sequence(opes) =>
      assert opes[0..] == opes;
      DescendsMore(n, r, n.top, o);
      f := SequenceEnds(g, n, input, r, o, 0, pos, Empty());
      f := f + 1;
    case PrioritizedChoice(opes) =>
      f := ChoiceEnds(g, n, input, r, o, 0, pos, sv);
      f := f + 1;
    case ZeroOrMore(x) =>
      f := ManyEnds(g, n, input, r, o, x, pos, 0, sv);
      f := f + 1;
    case OneOrMore(x) =>
      f := OneOrMoreEnds(g, n, input, r, x, pos, sv);
    case Opt(x) =>
      f := Ends(g, n, input, r, x, pos, sv);
      f := f + 1;
    case AndPredicate(x) =>
      f := Ends(g, n, input, r, x, pos, Empty());
      f := f + 1;
    case NotPredicate(x) =>
      f := Ends(g, n, input, r, x, pos, Empty());
      f := f + 1;
    case Reference(id) =>
      f := Ends(g, n, input, n.rank[id], g.rules[id].ope, pos, Empty());
      f := f + 2;
    case _ =>
      f := 1;
  }

  lemma {:induction false} OneOrMoreEnds<V>(g: Grammar<V>, n: Analysis, input: string, r: nat, x: Ope, pos: nat,
      sv: Values<V>) returns (f: nat)
    requires WellFormed(g, n) && pos <= |input| && Descends(n, r, OneOrMore(x)) && r <= n.top
    ensures Parse(g, input, f, OneOrMore(x), pos, sv).Some?
    decreases |input| - pos, r, OneOrMore(x), 0
  {
    var f1 := Ends(g, n, input, r, x, pos, sv);
    var first := Parse(g, input, f1, x, pos, sv).value;
    f := f1 + 1;
    if first.len.Some? {
      if first.len.value == 0 {
        EmptyMatch(g, n, input, f1, x, pos, sv);
        assert false;
      } else {
        DescendsMore(n, r, n.top, x);
        var f2 := ManyEnds(g, n, input, n.top, ZeroOrMore(x), x, pos, first.len.value, first.sv);
        MoreFuel(g, input, f1, f1 + f2, x, pos, sv);
        MoreFuelMany(g, input, f2, f1 + f2, x, pos, first.len.value, first.sv);
        f := f1 + f2 + 1;
      }
    }
  }

  /** In a sequence the bound on ranks is lifted once an operand is passed that consumes. */
  ghost predicate MayGoOn(n: Analysis, r: nat, o: Ope, k: nat)
    requires o.Sequence? && k <= |o.opes|
  {
    r <= n.top && Descends(n, n.top, o) && if NothingBefore(n, o.opes, k) then Descends(n, r, o) else r == n.top
  }

  lemma OperandDescends(n: Analysis, r: nat, o: Ope, k: nat)
    requires o.Sequence? && k < |o.opes| && MayGoOn(n, r, o, k)
    ensures Descends(n, r, o.opes[k])
    ensures MayBeEmpty(n, o.opes[k]) ==> MayGoOn(n, r, o, k + 1)
    ensures MayGoOn(n, n.top, o, k + 1)
  {
    assert NothingBefore(n, o.opes, k + 1) ==> NothingBefore(n, o.opes, k);
  }

  lemma SequenceGoesOn<V>(g: Grammar<V>, input: string, f1: nat, f2: nat, opes: seq<Ope>, pos: nat, sv: Values<V>)
    requires pos <= |input| && opes != [] && Parse(g, input, f1, opes[0], pos, sv).Some?
    requires Parse(g, input, f1, opes[0], pos, sv).value.len.Some?
    requires var r := Parse(g, input, f1, opes[0], pos, sv).value;
      ParseSequence(g, input, f2, opes[1..], pos + r.len.value, r.sv).Some?
    ensures ParseSequence(g, input, f1 + f2 + 1, opes, pos, sv).Some?
  {
    var r := Parse(g, input, f1, opes[0], pos, sv).value;
    MoreFuel(g, input, f1, f1 + f2, opes[0], pos, sv);
    MoreFuelSequence(g, input, f2, f1 + f2, opes[1..], pos + r.len.value, r.sv);
  }

  lemma {:induction false} SequenceEnds<V>(g: Grammar<V>, n: Analysis, input: string, r: nat, o: Ope, k: nat, pos: nat,
      sv: Values<V>) returns (f: nat)
    requires WellFormed(g, n) && pos <= |input| && o.Sequence? && k <= |o.opes| && MayGoOn(n, r, o, k)
    ensures ParseSequence(g, input, f, o.opes[k..], pos, sv).Some?
    decreases |input| - pos, r, o, 0, |o.opes| - k
  {
    f := 1;
    if k < |o.opes| {
      var x, rest := o.opes[k], o.opes[k + 1..];
      assert o.opes[k..][0] == x && o.opes[k..][1..] == rest;
      OperandDescends(n, r, o, k);
      var f1 := Ends(g, n, input, r, x, pos, sv);
      var first := Parse(g, input, f1, x, pos, sv).value;
      f := f1 + 1;
      if first.len.Some? {
        var f2;
        if first.len.value == 0 {
          EmptyMatch(g, n, input, f1, x, pos, sv);
          f2 := SequenceEnds(g, n, input, r, o, k + 1, pos, first.sv);
        } else {
          f2 := SequenceEnds(g, n, input, n.top, o, k + 1, pos + first.len.value, first.sv);
        }
        SequenceGoesOn(g, input, f1, f2, o.opes[k..], pos, sv);
        f := f1 + f2 + 1;
      }
    }
  }

  lemma {:induction false} ChoiceEnds<V>(g: Grammar<V>, n: Analysis, input: string, r: nat, o: Ope, id: nat, pos: nat,
      sv: Values<V>) returns (f: nat)
    requires WellFormed(g, n) && pos <= |input| && o.PrioritizedChoice? && id <= |o.opes|
    requires Descends(n, r, o) && r <= n.top
    ensures ParseChoice(g, input, f, o.opes, id, pos, sv).Some?
    decreases |input| - pos, r, o, 0, |o.opes| - id
  {
    f := 1;
    if id < |o.opes| {
      var f1 := Ends(g, n, input, r, o.opes[id], pos, Empty());
      f := f1 + 1;
      if Parse(g, input, f1, o.opes[id], pos, Empty()).value.len.None? {
        var f2 := ChoiceEnds(g, n, input, r, o, id + 1, pos, sv);
        MoreFuel(g, input, f1, f1 + f2, o.opes[id], pos, Empty());
        MoreFuelChoice(g, input, f2, f1 + f2, o.opes, id + 1, pos, sv);
        f := f1 + f2 + 1;
      }
    }
  }

  lemma ManyGoesOn<V>(g: Grammar<V>, input: string, f1: nat, f2: nat, x: Ope, pos: nat, i: nat, sv: Values<V>)
    requires pos + i < |input| && Parse(g, input, f1, x, pos + i, sv).Some?
    requires Parse(g, input, f1, x, pos + i, sv).value.len.Some?
    requires var r := Parse(g, input, f1, x, pos + i, sv).value;
      ParseMany(g, input, f2, x, pos, i + r.len.value, r.sv).Some?
    ensures ParseMany(g, input, f1 + f2 + 1, x, pos, i, sv).Some?
  {
    var r := Parse(g, input, f1, x, pos + i, sv).value;
    MoreFuel(g, input, f1, f1 + f2, x, pos + i, sv);
    MoreFuelMany(g, input, f2, f1 + f2, x, pos, i + r.len.value, r.sv);
    ManyUnfolds(g, input, f1 + f2 + 1, x, pos, i, sv, r);
  }

  lemma {:induction false} ManyEnds<V>(g: Grammar<V>, n: Analysis, input: string, r: nat, o: Ope, x: Ope, pos: nat,
      i: nat, sv: Values<V>) returns (f: nat)
    requires WellFormed(g, n) && pos + i <= |input| && o == ZeroOrMore(x) && Descends(n, r, o) && r <= n.top
    ensures ParseMany(g, input, f, x, pos, i, sv).Some?
    decreases |input| - pos - i, r, o, 0, 0
  {
    f := 1;
    if pos + i < |input| {
      var f1 := Ends(g, n, input, r, x, pos + i, sv);
      var first := Parse(g, input, f1, x, pos + i, sv).value;
      f := f1 + 1;
      if first.len.Some? {
        if first.len.value == 0 {
          EmptyMatch(g, n, input, f1, x, pos + i, sv);
          assert false;
        } else {
          DescendsMore(n, r, n.top, x);
          var f2 := ManyEnds(g, n, input, n.top, o, x, pos, i + first.len.value, first.sv);
          ManyGoesOn(g, input, f1, f2, x, pos, i, sv);
          f := f1 + f2 + 1;
        }
      }
    }
  }

  /** So every parse of a well-formed grammar has an outcome, from any rule and at any position. */
  lemma ParseEnds<V>(g: Grammar<V>, n: Analysis, input: string, id: nat, pos: nat) returns (m: Match<V>)
    requires WellFormed(g, n) && pos <= |input| && id < |g.rules|
    ensures RuleGives(g, input, id, pos, m)
  {
    var f := Ends(g, n, input, n.top, Reference(id), pos, Empty());
    m := ParseRule(g, input, f - 1, id, pos).value;
  }

  // ----- where a grammar is not well formed -----

  /** At `p`, `x` never fails and never consumes. */
  ghost predicate MatchesNothing<V(!new)>(g: Grammar<V>, input: string, x: Ope, p: nat)
    requires p <= |input|
  {
    forall f: nat, sv: Values<V> ::
      Parse(g, input, f, x, p, sv).Some? ==> Parse(g, input, f, x, p, sv).value.len == Some(0)
  }

  /** A repetition of it never ends, whatever the fuel, unless at the end of the input. */
  lemma {:induction false} EmptyBodyLoops<V(!new)>(g: Grammar<V>, input: string, f: nat, x: Ope, pos: nat, i: nat,
      sv: Values<V>)
    requires pos + i < |input| && MatchesNothing(g, input, x, pos + i)
    ensures ParseMany(g, input, f, x, pos, i, sv).None?
    decreases f
  {
    if f > 0 {
      var r := Parse(g, input, f - 1, x, pos + i, sv);
      if r.Some? {
        EmptyBodyLoops(g, input, f - 1, x, pos, i, r.value.sv);
      }
    }
  }

  /** A rule that begins with itself never ends. */
  lemma {:induction false} LeftRecursionLoops<V>(g: Grammar<V>, input: string, f: nat, id: nat, rest: seq<Ope>,
      pos: nat)
    requires pos <= |input| && id < |g.rules| && g.rules[id].ope == Sequence([Reference(id)] + rest)
    ensures ParseRule(g, input, f, id, pos).None?
    decreases f
  {
    var opes := [Reference(id)] + rest;
    if f > 2 {
      if f > 3 {
        LeftRecursionLoops(g, input, f - 4, id, rest, pos);
      }
      assert opes[0] == Reference(id) && Parse(g, input, f - 3, opes[0], pos, Empty()).None?;
    }
    if f > 1 {
      assert ParseSequence(g, input, f - 2, opes, pos, Empty()).None?;
    }
  }
}
