/** The PEG engine with and without its packrat cache (canquick/peglib.h:823-852, 924-1230,
    2209-2295), for grammars without macros, captures, tokens and whitespace rules and with actions
    that depend only on what was parsed.

    Nothing stops a grammar from recursing for ever. Parsing is therefore given a supply of fuel,
    one unit for each step deeper; `None` means that it ran out. A parse has a result if some supply
    is enough for it. */
module Packrat {
  import opened Wrappers

  /** `SemanticValues`, without positions and tokens. */
  datatype Values<V> = Values(vals: seq<V>, choiceCount: nat, choice: nat)

  function Empty<V>(): Values<V> {
    Values([], 0, 0)
  }

  datatype Ope =
    | Literal(text: string)
    | Class(chars: set<char>)
    | Any
    | Sequence(opes: seq<Ope>)
    | PrioritizedChoice(opes: seq<Ope>)
    | ZeroOrMore(ope: Ope)
    | OneOrMore(ope: Ope)
    | Opt(ope: Ope)
    | AndPredicate(ope: Ope)
    | NotPredicate(ope: Ope)
    | Reference(id: nat)

  /** An action sees where the rule matched, how much, and the values below; it may reject the match
      (`parse_error`). */
  datatype Rule<!V> = Rule(ope: Ope, action: Option<(nat, nat, Values<V>) -> Option<V>>, ignore: bool)

  datatype Grammar<!V> = Grammar(rules: seq<Rule<V>>, noValue: V)

  /** The outcome of an operator: the length matched, or None for failure, and the values
      afterwards. */
  datatype Outcome<V> = Outcome(len: Option<nat>, sv: Values<V>)

  /** The outcome of a rule. */
  datatype Match<V> = NoMatch | Matched(len: nat, val: V)

  predicate Fits<V>(r: Option<Outcome<V>>, room: nat) {
    r.Some? && r.value.len.Some? ==> r.value.len.value <= room
  }

  predicate MatchFits<V>(r: Option<Match<V>>, room: nat) {
    r.Some? && r.value.Matched? ==> r.value.len <= room
  }

  /** What the repetition operators do to the values after a failed attempt: drop one element if
      there are more than before. */
  function Restore<V>(before: Values<V>, after: Values<V>): Values<V> {
    if |after.vals| > |before.vals| then
      after.(vals := after.vals[..|before.vals|] + after.vals[|before.vals| + 1..])
    else after
  }

  // ----- the plain recursive parser -----

  function Parse<V>(g: Grammar<V>, input: string, fuel: nat, o: Ope, pos: nat, sv: Values<V>): (r: Option<Outcome<V>>)
    requires pos <= |input|
    ensures Fits(r, |input| - pos)
    decreases fuel
  {
    if fuel == 0 then None
    else match o
      case Literal(text) =>
        Some(Outcome(if text <= input[pos..] then Some(|text|) else None, sv))
      case Class(chars) =>
        Some(Outcome(if pos < |input| && input[pos] in chars then Some(1) else None, sv))
      case Any =>
        Some(Outcome(if pos < |input| then Some(1) else None, sv))
      case Sequence(opes) =>
        var r := ParseSequence(g, input, fuel - 1, opes, pos, Empty());
        if r.None? then None
        else if r.value.len.None? then Some(Outcome(None, sv))
        else Some(Outcome(r.value.len, sv.(vals := sv.vals + r.value.sv.vals)))
      case PrioritizedChoice(opes) =>
        ParseChoice(g, input, fuel - 1, opes, 0, pos, sv)
      case ZeroOrMore(x) =>
        ParseMany(g, input, fuel - 1, x, pos, 0, sv)
      case OneOrMore(x) =>
        var r := Parse(g, input, fuel - 1, x, pos, sv);
        if r.None? || r.value.len.None? then r
        else ParseMany(g, input, fuel - 1, x, pos, r.value.len.value, r.value.sv)
      case Opt(x) =>
        var r := Parse(g, input, fuel - 1, x, pos, sv);
        if r.None? || r.value.len.Some? then r
        else Some(Outcome(Some(0), Restore(sv, r.value.sv)))
      case AndPredicate(x) =>
        var r := Parse(g, input, fuel - 1, x, pos, Empty());
        if r.None? then None
        else Some(Outcome(if r.value.len.Some? then Some(0) else None, sv))
      case NotPredicate(x) =>
        var r := Parse(g, input, fuel - 1, x, pos, Empty());
        if r.None? then None
        else Some(Outcome(if r.value.len.Some? then None else Some(0), sv))
      case Reference(id) =>
        var r := ParseRule(g, input, fuel - 1, id, pos);
        if r.None? then None else Some(Hold(g, id, r.value, sv))
  }

  /** What `Holder::parse` makes of the outcome of its rule. */
  function Hold<V>(g: Grammar<V>, id: nat, m: Match<V>, sv: Values<V>): Outcome<V> {
    match m
    case NoMatch => Outcome(None, sv)
    case Matched(len, val) =>
      Outcome(Some(len), if id < |g.rules| && g.rules[id].ignore then sv else sv.(vals := sv.vals + [val]))
  }

  function ParseSequence<V>(g: Grammar<V>, input: string, fuel: nat, opes: seq<Ope>, pos: nat,
      sv: Values<V>): (r: Option<Outcome<V>>)
    requires pos <= |input|
    ensures Fits(r, |input| - pos)
    decreases fuel
  {
    if fuel == 0 then None
    else if opes == [] then Some(Outcome(Some(0), sv))
    else
      var r := Parse(g, input, fuel - 1, opes[0], pos, sv);
      if r.None? || r.value.len.None? then r
      else
        var rest := ParseSequence(g, input, fuel - 1, opes[1..], pos + r.value.len.value, r.value.sv);
        if rest.None? || rest.value.len.None? then rest
        else Some(Outcome(Some(r.value.len.value + rest.value.len.value), rest.value.sv))
  }

  /** The alternatives from number `id` on. */
  function ParseChoice<V>(g: Grammar<V>, input: string, fuel: nat, opes: seq<Ope>, id: nat, pos: nat,
      sv: Values<V>): (r: Option<Outcome<V>>)
    requires pos <= |input|
    ensures Fits(r, |input| - pos)
    decreases fuel
  {
    if fuel == 0 then None
    else if id >= |opes| then Some(Outcome(None, sv))
    else
      var r := Parse(g, input, fuel - 1, opes[id], pos, Empty());
      if r.None? then None
      else if r.value.len.Some? then
        Some(Outcome(r.value.len, Values(sv.vals + r.value.sv.vals, |opes|, id)))
      else ParseChoice(g, input, fuel - 1, opes, id + 1, pos, sv)
  }

  /** The loop of the repetition operators, after `i` characters. */
  function ParseMany<V>(g: Grammar<V>, input: string, fuel: nat, x: Ope, pos: nat, i: nat,
      sv: Values<V>): (r: Option<Outcome<V>>)
    requires pos + i <= |input|
    ensures Fits(r, |input| - pos)
    decreases fuel
  {
    if fuel == 0 then None
    else if pos + i == |input| then Some(Outcome(Some(i), sv))
    else
      var r := Parse(g, input, fuel - 1, x, pos + i, sv);
      if r.None? then None
      else if r.value.len.None? then Some(Outcome(Some(i), Restore(sv, r.value.sv)))
      else ParseMany(g, input, fuel - 1, x, pos, i + r.value.len.value, r.value.sv)
  }

  /** A rule: its operator on fresh values, then its action. An undefined rule has no outcome. */
  function ParseRule<V>(g: Grammar<V>, input: string, fuel: nat, id: nat, pos: nat): (r: Option<Match<V>>)
    requires pos <= |input|
    ensures MatchFits(r, |input| - pos)
    decreases fuel
  {
    if fuel == 0 || id >= |g.rules| then None
    else
      var r := Parse(g, input, fuel - 1, g.rules[id].ope, pos, Empty());
      if r.None? then None else Some(Reduce(g, id, pos, r.value))
  }

  function Reduce<V>(g: Grammar<V>, id: nat, pos: nat, r: Outcome<V>): (m: Match<V>)
    requires id < |g.rules|
    ensures m.Matched? ==> r.len.Some? && m.len == r.len.value
  {
    if r.len.None? then NoMatch
    else
      var rule := g.rules[id];
      var sv := if rule.ope.PrioritizedChoice? then r.sv else Values(r.sv.vals, 0, 0);
      match rule.action
      case None => Matched(r.len.value, if sv.vals == [] then g.noValue else sv.vals[0])
      case Some(act) =>
        var v := act(pos, r.len.value, sv);
        if v.Some? then Matched(r.len.value, v.value) else NoMatch
  }

  // ----- more fuel changes nothing -----

  lemma {:induction false} MoreFuel<V>(g: Grammar<V>, input: string, f: nat, f': nat, o: Ope, pos: nat, sv: Values<V>)
    requires pos <= |input| && f <= f' && Parse(g, input, f, o, pos, sv).Some?
    ensures Parse(g, input, f', o, pos, sv) == Parse(g, input, f, o, pos, sv)
    decreases f
  {
    match o
    case Sequence(opes) => MoreFuelSequence(g, input, f - 1, f' - 1, opes, pos, Empty());
    case PrioritizedChoice(opes) => MoreFuelChoice(g, input, f - 1, f' - 1, opes, 0, pos, sv);
    case ZeroOrMore(x) => MoreFuelMany(g, input, f - 1, f' - 1, x, pos, 0, sv);
    case OneOrMore(x) =>
      MoreFuel(g, input, f - 1, f' - 1, x, pos, sv);
      var r := Parse(g, input, f - 1, x, pos, sv);
      if r.value.len.Some? {
        MoreFuelMany(g, input, f - 1, f' - 1, x, pos, r.value.len.value, r.value.sv);
      }
    case Opt(x) => MoreFuel(g, input, f - 1, f' - 1, x, pos, sv);
    case AndPredicate(x) => MoreFuel(g, input, f - 1, f' - 1, x, pos, Empty());
    case NotPredicate(x) => MoreFuel(g, input, f - 1, f' - 1, x, pos, Empty());
    case Reference(id) => MoreFuelRule(g, input, f - 1, f' - 1, id, pos);
    case _ =>
  }

  lemma {:induction false} MoreFuelSequence<V>(g: Grammar<V>, input: string, f: nat, f': nat, opes: seq<Ope>,
      pos: nat, sv: Values<V>)
    requires pos <= |input| && f <= f' && ParseSequence(g, input, f, opes, pos, sv).Some?
    ensures ParseSequence(g, input, f', opes, pos, sv) == ParseSequence(g, input, f, opes, pos, sv)
    decreases f
  {
    if opes != [] {
      MoreFuel(g, input, f - 1, f' - 1, opes[0], pos, sv);
      var r := Parse(g, input, f - 1, opes[0], pos, sv);
      if r.value.len.Some? {
        MoreFuelSequence(g, input, f - 1, f' - 1, opes[1..], pos + r.value.len.value, r.value.sv);
      }
    }
  }

  lemma {:induction false} MoreFuelChoice<V>(g: Grammar<V>, input: string, f: nat, f': nat, opes: seq<Ope>,
      id: nat, pos: nat, sv: Values<V>)
    requires pos <= |input| && f <= f' && ParseChoice(g, input, f, opes, id, pos, sv).Some?
    ensures ParseChoice(g, input, f', opes, id, pos, sv) == ParseChoice(g, input, f, opes, id, pos, sv)
    decreases f
  {
    if id < |opes| {
      MoreFuel(g, input, f - 1, f' - 1, opes[id], pos, Empty());
      if Parse(g, input, f - 1, opes[id], pos, Empty()).value.len.None? {
        MoreFuelChoice(g, input, f - 1, f' - 1, opes, id + 1, pos, sv);
      }
    }
  }

  lemma {:induction false} MoreFuelMany<V>(g: Grammar<V>, input: string, f: nat, f': nat, x: Ope, pos: nat,
      i: nat, sv: Values<V>)
    requires pos + i <= |input| && f <= f' && ParseMany(g, input, f, x, pos, i, sv).Some?
    ensures ParseMany(g, input, f', x, pos, i, sv) == ParseMany(g, input, f, x, pos, i, sv)
    decreases f
  {
    if pos + i < |input| {
      MoreFuel(g, input, f - 1, f' - 1, x, pos + i, sv);
      var r := Parse(g, input, f - 1, x, pos + i, sv);
      assert Parse(g, input, f' - 1, x, pos + i, sv) == r;
      if r.value.len.Some? {
        var j := i + r.value.len.value;
        ManyUnfolds(g, input, f, x, pos, i, sv, r.value);
        ManyUnfolds(g, input, f', x, pos, i, sv, r.value);
        MoreFuelMany(g, input, f - 1, f' - 1, x, pos, j, r.value.sv);
      }
    }
  }

  lemma ManyUnfolds<V>(g: Grammar<V>, input: string, f: nat, x: Ope, pos: nat, i: nat, sv: Values<V>, r: Outcome<V>)
    requires f > 0 && pos + i < |input| && Parse(g, input, f - 1, x, pos + i, sv) == Some(r) && r.len.Some?
    ensures ParseMany(g, input, f, x, pos, i, sv) == ParseMany(g, input, f - 1, x, pos, i + r.len.value, r.sv)
  {
  }

  lemma {:induction false} MoreFuelRule<V>(g: Grammar<V>, input: string, f: nat, f': nat, id: nat, pos: nat)
    requires pos <= |input| && f <= f' && ParseRule(g, input, f, id, pos).Some?
    ensures ParseRule(g, input, f', id, pos) == ParseRule(g, input, f, id, pos)
    decreases f
  {
    MoreFuel(g, input, f - 1, f' - 1, g.rules[id].ope, pos, Empty());
  }

  /** A sequence from its first operator and the rest, each with a supply of its own. */
  lemma SequenceStep<V>(g: Grammar<V>, input: string, w1: nat, w2: nat, opes: seq<Ope>, pos: nat, sv: Values<V>,
      r: Outcome<V>, rest: Outcome<V>)
    requires pos <= |input| && opes != [] && Parse(g, input, w1, opes[0], pos, sv) == Some(r) && r.len.Some?
    requires ParseSequence(g, input, w2, opes[1..], pos + r.len.value, r.sv) == Some(rest)
    ensures ParseSequence(g, input, w1 + w2 + 1, opes, pos, sv) ==
      Some(if rest.len.None? then rest else Outcome(Some(r.len.value + rest.len.value), rest.sv))
  {
    MoreFuel(g, input, w1, w1 + w2, opes[0], pos, sv);
    MoreFuelSequence(g, input, w2, w1 + w2, opes[1..], pos + r.len.value, r.sv);
  }

  /** A round of a repetition and the rounds after it. */
  lemma ManyStep<V>(g: Grammar<V>, input: string, w1: nat, w2: nat, x: Ope, pos: nat, i: nat, sv: Values<V>,
      r: Outcome<V>)
    requires pos + i < |input| && Parse(g, input, w1, x, pos + i, sv) == Some(r) && r.len.Some?
    requires ParseMany(g, input, w2, x, pos, i + r.len.value, r.sv).Some?
    ensures ParseMany(g, input, w1 + w2 + 1, x, pos, i, sv) == ParseMany(g, input, w2, x, pos, i + r.len.value, r.sv)
  {
    MoreFuel(g, input, w1, w1 + w2, x, pos + i, sv);
    MoreFuelMany(g, input, w2, w1 + w2, x, pos, i + r.len.value, r.sv);
  }

  // ----- a failed parse leaves the values alone -----

  lemma {:induction false} FailureKeepsValues<V>(g: Grammar<V>, input: string, f: nat, o: Ope, pos: nat, sv: Values<V>)
    requires pos <= |input| && Parse(g, input, f, o, pos, sv).Some?
    ensures var r := Parse(g, input, f, o, pos, sv).value;
      (r.len.None? ==> r.sv == sv) && sv.vals <= r.sv.vals
    decreases f
  {
    match o
    case PrioritizedChoice(opes) => ChoiceKeepsValues(g, input, f - 1, opes, 0, pos, sv);
    case ZeroOrMore(x) => ManyKeepsValues(g, input, f - 1, x, pos, 0, sv);
    case OneOrMore(x) =>
      FailureKeepsValues(g, input, f - 1, x, pos, sv);
      var r := Parse(g, input, f - 1, x, pos, sv);
      if r.value.len.Some? {
        ManyKeepsValues(g, input, f - 1, x, pos, r.value.len.value, r.value.sv);
      }
    case Opt(x) => FailureKeepsValues(g, input, f - 1, x, pos, sv);
    case _ =>
  }

  lemma {:induction false} ChoiceKeepsValues<V>(g: Grammar<V>, input: string, f: nat, opes: seq<Ope>, id: nat,
      pos: nat, sv: Values<V>)
    requires pos <= |input| && ParseChoice(g, input, f, opes, id, pos, sv).Some?
    ensures var r := ParseChoice(g, input, f, opes, id, pos, sv).value;
      (r.len.None? ==> r.sv == sv) && sv.vals <= r.sv.vals
    decreases f
  {
    if id < |opes| && Parse(g, input, f - 1, opes[id], pos, Empty()).value.len.None? {
      ChoiceKeepsValues(g, input, f - 1, opes, id + 1, pos, sv);
    }
  }

  lemma {:induction false} ManyKeepsValues<V>(g: Grammar<V>, input: string, f: nat, x: Ope, pos: nat, i: nat,
      sv: Values<V>)
    requires pos + i <= |input| && ParseMany(g, input, f, x, pos, i, sv).Some?
    ensures var r := ParseMany(g, input, f, x, pos, i, sv).value;
      r.len.Some? && sv.vals <= r.sv.vals
    decreases f
  {
    if pos + i < |input| {
      FailureKeepsValues(g, input, f - 1, x, pos + i, sv);
      var r := Parse(g, input, f - 1, x, pos + i, sv);
      if r.value.len.Some? {
        ManyKeepsValues(g, input, f - 1, x, pos, i + r.value.len.value, r.value.sv);
      }
    }
  }

  // ----- results that do not depend on the supply -----

  ghost predicate Gives<V>(g: Grammar<V>, input: string, o: Ope, pos: nat, sv: Values<V>, out: Outcome<V>)
    requires pos <= |input|
  {
    exists f: nat :: Parse(g, input, f, o, pos, sv) == Some(out)
  }

  ghost predicate RuleGives<V>(g: Grammar<V>, input: string, id: nat, pos: nat, m: Match<V>)
    requires pos <= |input|
  {
    exists f: nat :: ParseRule(g, input, f, id, pos) == Some(m)
  }

  lemma OneOutcome<V>(g: Grammar<V>, input: string, o: Ope, pos: nat, sv: Values<V>, a: Outcome<V>, b: Outcome<V>)
    requires pos <= |input| && Gives(g, input, o, pos, sv, a) && Gives(g, input, o, pos, sv, b)
    ensures a == b
  {
    var f: nat :| Parse(g, input, f, o, pos, sv) == Some(a);
    var f': nat :| Parse(g, input, f', o, pos, sv) == Some(b);
    MoreFuel(g, input, f, f + f', o, pos, sv);
    MoreFuel(g, input, f', f + f', o, pos, sv);
  }

  // ----- the cache -----

  /** The slot of a rule at a position, in vectors of `count * (length + 1)` flags. */
  function Slot(count: nat, pos: nat, id: nat): nat {
    count * pos + id
  }

  lemma SlotInRange(count: nat, length: nat, pos: nat, id: nat)
    requires id < count && pos <= length
    ensures Slot(count, pos, id) < count * (length + 1)
  {
    assert count * pos <= count * length;
  }

  lemma SlotOrder(count: nat, pos: nat, id: nat, pos': nat, id': nat)
    requires id < count && pos < pos'
    ensures Slot(count, pos, id) < Slot(count, pos', id')
  {
    assert count * (pos + 1) <= count * pos';
  }

  /** No two rules and positions share a slot. */
  lemma SlotIsInjective(count: nat, pos: nat, id: nat, pos': nat, id': nat)
    requires id < count && id' < count && Slot(count, pos, id) == Slot(count, pos', id')
    ensures pos == pos' && id == id'
  {
    if pos < pos' {
      SlotOrder(count, pos, id, pos', id');
    } else if pos' < pos {
      SlotOrder(count, pos', id', pos, id);
    }
  }

  /** What a slot says, given its success flag. */
  ghost predicate Says<V>(success: bool, values: map<(nat, nat), (nat, V)>, pos: nat, id: nat, m: Match<V>) {
    if success then (pos, id) in values && m == Matched(values[(pos, id)].0, values[(pos, id)].1) else m == NoMatch
  }

  /** A slot is empty, or says what the plain parser finds. */
  ghost predicate SlotIsRight<V(!new)>(g: Grammar<V>, input: string, registered: bool, success: bool,
      values: map<(nat, nat), (nat, V)>, pos: nat, id: nat)
    requires pos <= |input|
  {
    registered ==> exists m :: Says(success, values, pos, id, m) && RuleGives(g, input, id, pos, m)
  }

  /** Every slot of the two vectors is right. */
  ghost predicate CacheIsRight<V(!new)>(g: Grammar<V>, input: string, registered: seq<bool>, success: seq<bool>,
      values: map<(nat, nat), (nat, V)>)
  {
    |registered| == |success| == |g.rules| * (|input| + 1) &&
    forall id: nat, pos: nat | id < |g.rules| && pos <= |input| ::
      SlotInRange(|g.rules|, |input|, pos, id);
      SlotIsRight(g, input, registered[Slot(|g.rules|, pos, id)], success[Slot(|g.rules|, pos, id)], values, pos, id)
  }

  lemma RegisterKeepsRight<V(!new)>(g: Grammar<V>, input: string, registered: seq<bool>, success: seq<bool>,
      values: map<(nat, nat), (nat, V)>, id: nat, pos: nat, m: Match<V>)
    requires CacheIsRight(g, input, registered, success, values)
    requires id < |g.rules| && pos <= |input| && RuleGives(g, input, id, pos, m)
    ensures Slot(|g.rules|, pos, id) < |registered| == |success|
    ensures var idx := Slot(|g.rules|, pos, id);
      CacheIsRight(g, input, registered[idx := true], success[idx := m.Matched?],
        if m.Matched? then values[(pos, id) := (m.len, m.val)] else values)
  {
    SlotInRange(|g.rules|, |input|, pos, id);
    var idx := Slot(|g.rules|, pos, id);
    var values' := if m.Matched? then values[(pos, id) := (m.len, m.val)] else values;
    assert Says(m.Matched?, values', pos, id, m);
    forall id': nat, pos': nat | id' < |g.rules| && pos' <= |input|
      ensures Slot(|g.rules|, pos', id') < |registered|
      ensures SlotIsRight(g, input, registered[idx := true][Slot(|g.rules|, pos', id')],
        success[idx := m.Matched?][Slot(|g.rules|, pos', id')], values', pos', id')
    {
      SlotInRange(|g.rules|, |input|, pos', id');
      var idx' := Slot(|g.rules|, pos', id');
      if idx' == idx {
        SlotIsInjective(|g.rules|, pos, id, pos', id');
      } else if registered[idx'] {
        assert SlotIsRight(g, input, registered[idx'], success[idx'], values, pos', id');
        var m' :| Says(success[idx'], values, pos', id', m') && RuleGives(g, input, id', pos', m');
        assert Says(success[idx'], values', pos', id', m');
      }
    }
  }

  class Context<V(!new, 0)> {
    const g: Grammar<V>
    const input: string
    const enablePackratParsing: bool
    const registered: array<bool>
    const success: array<bool>
    var values: map<(nat, nat), (nat, V)>

    /** Everything in the cache is the outcome of the plain parser. */
    ghost predicate Inv()
      reads this, registered, success
    {
      registered != success &&
      (enablePackratParsing ==> CacheIsRight(g, input, registered[..], success[..], values))
    }

    constructor (grammar: Grammar<V>, text: string, enable: bool)
      ensures g == grammar && input == text && enablePackratParsing == enable && Inv()
      ensures fresh(registered) && fresh(success)
    {
      g, input, enablePackratParsing := grammar, text, enable;
      var n := if enable then |grammar.rules| * (|text| + 1) else 0;
      registered := new bool[n](_ => false);
      success := new bool[n](_ => false);
      values := map[];
      new;
      forall id: nat, pos: nat | enablePackratParsing && id < |g.rules| && pos <= |input|
        ensures Slot(|g.rules|, pos, id) < registered.Length
      {
        SlotInRange(|g.rules|, |input|, pos, id);
      }
    }

    /** Stores an outcome in the slot of its rule and position. */
    method Register(id: nat, pos: nat, m: Match<V>)
      requires Inv() && enablePackratParsing && id < |g.rules| && pos <= |input| && RuleGives(g, input, id, pos, m)
      modifies this, registered, success
      ensures Inv()
    {
      ghost var reg, succ := registered[..], success[..];
      RegisterKeepsRight(g, input, reg, succ, values, id, pos, m);
      var idx := Slot(|g.rules|, pos, id);
      registered[idx] := true;
      success[idx] := m.Matched?;
      if m.Matched? {
        values := values[(pos, id) := (m.len, m.val)];
      }
      assert registered[..] == reg[idx := true] && success[..] == succ[idx := m.Matched?];
    }

    /** `Context::packrat`, with what `Holder::parse` passes it to run on a miss. `w` is a supply that
        is enough for the plain parser. */
    method PackratRule(id: nat, pos: nat, fuel: nat) returns (m: Option<Match<V>>, ghost w: nat)
      requires Inv() && pos <= |input|
      modifies this, registered, success
      ensures Inv()
      ensures m.Some? ==> ParseRule(g, input, w, id, pos) == m
      ensures m.None? ==> ParseRule(g, input, fuel, id, pos).None?
      decreases fuel
    {
      w := 0;
      if fuel == 0 || id >= |g.rules| {
        return None, 0;
      }
      if enablePackratParsing {
        SlotInRange(|g.rules|, |input|, pos, id);
        var idx := Slot(|g.rules|, pos, id);
        if registered[idx] {
          assert SlotIsRight(g, input, registered[..][idx], success[..][idx], values, pos, id);
          ghost var m' :| Says(success[idx], values, pos, id, m') && RuleGives(g, input, id, pos, m');
          w :| ParseRule(g, input, w, id, pos) == Some(m');
          if success[idx] {
            m := Some(Matched(values[(pos, id)].0, values[(pos, id)].1));
          } else {
            m := Some(NoMatch);
          }
          return;
        }
      }
      var r, w' := Run(g.rules[id].ope, pos, Empty(), fuel - 1);
      if r.None? {
        return None, 0;
      }
      m, w := Some(Reduce(g, id, pos, r.value)), w' + 1;
      assert ParseRule(g, input, w, id, pos) == m;
      if enablePackratParsing {
        Register(id, pos, m.value);
      }
    }

    /** The `parse` of the operators. */
    method Run(o: Ope, pos: nat, sv: Values<V>, fuel: nat) returns (r: Option<Outcome<V>>, ghost w: nat)
      requires Inv() && pos <= |input|
      modifies this, registered, success
      ensures Inv() && Fits(r, |input| - pos)
      ensures r.Some? ==> Parse(g, input, w, o, pos, sv) == r
      ensures r.None? ==> Parse(g, input, fuel, o, pos, sv).None?
      decreases fuel
    {
      w := 0;
      if fuel == 0 {
        return None, 0;
      }
      match o
      case Literal(text) =>
        return Some(Outcome(if text <= input[pos..] then Some(|text|) else None, sv)), 1;
      case Class(chars) =>
        return Some(Outcome(if pos < |input| && input[pos] in chars then Some(1) else None, sv)), 1;
      case Any =>
        return Some(Outcome(if pos < |input| then Some(1) else None, sv)), 1;
      case Sequence(opes) =>
        r, w := RunSequence(opes, pos, Empty(), fuel - 1);
        if r.Some? {
          w := w + 1;
          r := Some(if r.value.len.None? then Outcome(None, sv)
                    else Outcome(r.value.len, sv.(vals := sv.vals + r.value.sv.vals)));
        }
      case PrioritizedChoice(opes) =>
        r, w := RunChoice(opes, pos, sv, fuel - 1);
        w := w + 1;
      case ZeroOrMore(x) =>
        r, w := RunMany(x, pos, 0, sv, fuel - 1);
        w := w + 1;
      case OneOrMore(x) =>
        r, w := RunOneOrMore(x, pos, sv, fuel);
      case Opt(x) =>
        r, w := Run(x, pos, sv, fuel - 1);
        w := w + 1;
        if r.Some? && r.value.len.None? {
          r := Some(Outcome(Some(0), Restore(sv, r.value.sv)));
        }
      case AndPredicate(x) =>
        r, w := Run(x, pos, Empty(), fuel - 1);
        w := w + 1;
        if r.Some? {
          r := Some(Outcome(if r.value.len.Some? then Some(0) else None, sv));
        }
      case NotPredicate(x) =>
        r, w := Run(x, pos, Empty(), fuel - 1);
        w := w + 1;
        if r.Some? {
          r := Some(Outcome(if r.value.len.Some? then None else Some(0), sv));
        }
      case Reference(id) =>
        var m;
        m, w := PackratRule(id, pos, fuel - 1);
        w := w + 1;
        if m.Some? {
          r := Some(Hold(g, id, m.value, sv));
        } else {
          r := None;
        }
    }

    method RunOneOrMore(x: Ope, pos: nat, sv: Values<V>, fuel: nat) returns (r: Option<Outcome<V>>, ghost w: nat)
      requires Inv() && pos <= |input| && fuel > 0
      modifies this, registered, success
      ensures Inv() && Fits(r, |input| - pos)
      ensures r.Some? ==> Parse(g, input, w, OneOrMore(x), pos, sv) == r
      ensures r.None? ==> Parse(g, input, fuel, OneOrMore(x), pos, sv).None?
      decreases fuel, 0
    {
      r, w := Run(x, pos, sv, fuel - 1);
      if r.Some? {
        SameAsPlain(fuel - 1, x, pos, sv, w);
      }
      if r.Some? && r.value.len.Some? {
        ghost var first, w1 := r.value, w;
        ghost var w2;
        r, w2 := RunMany(x, pos, r.value.len.value, r.value.sv, fuel - 1);
        w := w1 + w2;
        if r.Some? {
          MoreFuel(g, input, w1, w, x, pos, sv);
          MoreFuelMany(g, input, w2, w, x, pos, first.len.value, first.sv);
        }
      }
      w := w + 1;
    }

    /** The loop over the operators of a sequence. */
    method RunSequence(opes: seq<Ope>, pos: nat, sv: Values<V>, fuel: nat) returns (r: Option<Outcome<V>>, ghost w: nat)
      requires Inv() && pos <= |input|
      modifies this, registered, success
      ensures Inv() && Fits(r, |input| - pos)
      ensures r.Some? ==> ParseSequence(g, input, w, opes, pos, sv) == r
      ensures r.None? ==> ParseSequence(g, input, fuel, opes, pos, sv).None?
      decreases fuel
    {
      w := 0;
      if fuel == 0 {
        return None, 0;
      }
      if opes == [] {
        return Some(Outcome(Some(0), sv)), 1;
      }
      r, w := Run(opes[0], pos, sv, fuel - 1);
      if r.None? {
        return;
      }
      if r.value.len.None? {
        w := w + 1;
        return;
      }
      ghost var w1, w2, first := w, 0, r.value;
      var len, sv' := r.value.len.value, r.value.sv;
      r, w2 := RunSequence(opes[1..], pos + len, sv', fuel - 1);
      w := w1 + w2 + 1;
      if r.Some? {
        SequenceStep(g, input, w1, w2, opes, pos, sv, first, r.value);
        if r.value.len.Some? {
          r := Some(Outcome(Some(len + r.value.len.value), r.value.sv));
        }
      } else {
        SequenceRunsOut(fuel, w1, opes, pos, sv);
      }
    }

    /** The loop over the alternatives, in order, until one succeeds. */
    method RunChoice(opes: seq<Ope>, pos: nat, sv: Values<V>, fuel: nat) returns (r: Option<Outcome<V>>, ghost w: nat)
      requires Inv() && pos <= |input|
      modifies this, registered, success
      ensures Inv() && Fits(r, |input| - pos)
      ensures r.Some? ==> ParseChoice(g, input, w, opes, 0, pos, sv) == r
      ensures r.None? ==> ParseChoice(g, input, fuel, opes, 0, pos, sv).None?
      decreases fuel
    {
      r, w := RunChoiceFrom(opes, 0, pos, sv, fuel);
    }

    method RunChoiceFrom(opes: seq<Ope>, id: nat, pos: nat, sv: Values<V>,
        fuel: nat) returns (r: Option<Outcome<V>>, ghost w: nat)
      requires Inv() && pos <= |input|
      modifies this, registered, success
      ensures Inv() && Fits(r, |input| - pos)
      ensures r.Some? ==> ParseChoice(g, input, w, opes, id, pos, sv) == r
      ensures r.None? ==> ParseChoice(g, input, fuel, opes, id, pos, sv).None?
      decreases fuel, 0
    {
      w := 0;
      if fuel == 0 {
        return None, 0;
      }
      if id >= |opes| {
        return Some(Outcome(None, sv)), 1;
      }
      r, w := Run(opes[id], pos, Empty(), fuel - 1);
      if r.None? {
        return;
      }
      SameAsPlain(fuel - 1, opes[id], pos, Empty(), w);
      if r.value.len.Some? {
        r, w := Some(Outcome(r.value.len, Values(sv.vals + r.value.sv.vals, |opes|, id))), w + 1;
        return;
      }
      ghost var w1 := w;
      ghost var w2;
      r, w2 := RunChoiceFrom(opes, id + 1, pos, sv, fuel - 1);
      w := w1 + w2;
      if r.Some? {
        MoreFuel(g, input, w1, w, opes[id], pos, Empty());
        MoreFuelChoice(g, input, w2, w, opes, id + 1, pos, sv);
      }
      w := w + 1;
    }

    /** The loop of the repetition operators. */
    method RunMany(x: Ope, pos: nat, i: nat, sv: Values<V>, fuel: nat) returns (r: Option<Outcome<V>>, ghost w: nat)
      requires Inv() && pos + i <= |input|
      modifies this, registered, success
      ensures Inv() && Fits(r, |input| - pos)
      ensures r.Some? ==> ParseMany(g, input, w, x, pos, i, sv) == r
      ensures r.None? ==> ParseMany(g, input, fuel, x, pos, i, sv).None?
      decreases fuel
    {
      w := 0;
      if fuel == 0 {
        return None, 0;
      }
      if pos + i == |input| {
        return Some(Outcome(Some(i), sv)), 1;
      }
      r, w := Run(x, pos + i, sv, fuel - 1);
      if r.None? {
        return;
      }
      if r.value.len.None? {
        SameAsPlain(fuel - 1, x, pos + i, sv, w);
        r, w := Some(Outcome(Some(i), Restore(sv, r.value.sv))), w + 1;
        return;
      }
      ghost var w1, w2, first := w, 0, r.value;
      r, w2 := RunMany(x, pos, i + r.value.len.value, r.value.sv, fuel - 1);
      w := w1 + w2 + 1;
      if r.Some? {
        ManyStep(g, input, w1, w2, x, pos, i, sv, first);
      } else {
        ManyRunsOut(fuel, w1, x, pos, i, sv);
      }
    }

    lemma ManyRunsOut(fuel: nat, w1: nat, x: Ope, pos: nat, i: nat, sv: Values<V>)
      requires fuel > 0 && pos + i < |input| && Parse(g, input, w1, x, pos + i, sv).Some?
      requires Parse(g, input, w1, x, pos + i, sv).value.len.Some?
      requires var r := Parse(g, input, w1, x, pos + i, sv).value;
        ParseMany(g, input, fuel - 1, x, pos, i + r.len.value, r.sv).None?
      ensures ParseMany(g, input, fuel, x, pos, i, sv).None?
    {
      SameAsPlain(fuel - 1, x, pos + i, sv, w1);
    }

    /** If the rest of a sequence has no outcome with the fuel at hand, neither has the sequence. */
    lemma SequenceRunsOut(fuel: nat, w1: nat, opes: seq<Ope>, pos: nat, sv: Values<V>)
      requires pos <= |input| && opes != [] && fuel > 0 && Parse(g, input, w1, opes[0], pos, sv).Some?
      requires Parse(g, input, w1, opes[0], pos, sv).value.len.Some?
      requires var r := Parse(g, input, w1, opes[0], pos, sv).value;
        ParseSequence(g, input, fuel - 1, opes[1..], pos + r.len.value, r.sv).None?
      ensures ParseSequence(g, input, fuel, opes, pos, sv).None?
    {
      SameAsPlain(fuel - 1, opes[0], pos, sv, w1);
    }

    /** With the fuel at hand the plain parser has either no outcome or the one found. */
    lemma SameAsPlain(fuel: nat, o: Ope, pos: nat, sv: Values<V>, w: nat)
      requires pos <= |input| && Parse(g, input, w, o, pos, sv).Some?
      ensures Parse(g, input, fuel, o, pos, sv).Some? ==>
        Parse(g, input, fuel, o, pos, sv) == Parse(g, input, w, o, pos, sv)
    {
      if Parse(g, input, fuel, o, pos, sv).Some? {
        OneOutcome(g, input, o, pos, sv, Parse(g, input, fuel, o, pos, sv).value, Parse(g, input, w, o, pos, sv).value);
      }
    }

    /** A whole parse from a rule. Whatever is in the cache, the outcome is that of the plain parser
        whenever there is one within the fuel, and any outcome is one that the plain parser reaches. */
    method ParseStart(id: nat, fuel: nat) returns (m: Option<Match<V>>)
      requires Inv()
      modifies this, registered, success
      ensures Inv()
      ensures m.Some? ==> RuleGives(g, input, id, 0, m.value)
      ensures ParseRule(g, input, fuel, id, 0).Some? ==> m == ParseRule(g, input, fuel, id, 0)
    {
      ghost var w;
      m, w := PackratRule(id, 0, fuel);
      if m.Some? && ParseRule(g, input, fuel, id, 0).Some? {
        MoreFuelRule(g, input, w, w + fuel, id, 0);
        MoreFuelRule(g, input, fuel, w + fuel, id, 0);
      }
    }
  }
}
