/** What the operators of a parsing expression grammar mean (canquick/peglib.h:924-1230, 2209-2285),
    apart from any parser: rules by which an expression matches or fails at a position, one or two
    for each operator. The parser finds an outcome exactly if it has a derivation. */
module PackratMeaning {
  import opened Packrat
  import opened Wrappers

  /** What a derivation is about: an operator, the operands of a sequence, the alternatives of a choice from number
      `id` on, the rounds of a repetition, or a rule of the grammar. */
  datatype Goal =
    | Expression(o: Ope)
    | Operands(opes: seq<Ope>)
    | Alternatives(opes: seq<Ope>, id: nat)
    | Rounds(x: Ope)
    | Body(id: nat)

  /** A derivation with the outcomes of its premises. */
  datatype Derivation<V> =
    | Axiom
    | Premise(first: Derivation<V>, out: Outcome<V>)
    | Premises(first: Derivation<V>, out: Outcome<V>, rest: Derivation<V>, restOut: Outcome<V>)

  predicate Matches<V>(out: Outcome<V>) {
    out.len.Some?
  }

  /** The text is there. */
  predicate LooksAt(input: string, pos: nat, text: string) {
    pos + |text| <= |input| && forall k | 0 <= k < |text| :: input[pos + k] == text[k]
  }

  /** `out` is a match of length `n` that leaves `sv`. */
  ghost predicate MatchOf<V>(out: Outcome<V>, n: nat, sv: Values<V>) {
    out == Outcome(Some(n), sv)
  }

  ghost predicate Failure<V>(out: Outcome<V>, sv: Values<V>) {
    out == Outcome(None, sv)
  }

  function WithVals<V>(sv: Values<V>, more: seq<V>): Values<V> {
    Values(sv.vals + more, sv.choiceCount, sv.choice)
  }

  ghost predicate Derives<V>(g: Grammar<V>, input: string, d: Derivation<V>, goal: Goal, pos: nat, sv: Values<V>,
      out: Outcome<V>)
    requires pos <= |input|
    decreases d
  {
    match goal
    case Expression(o) => DerivesExpression(g, input, d, o, pos, sv, out)
    case Operands(opes) =>
      if opes == [] then MatchOf(out, 0, sv)
      else
        !d.Axiom? && Derives(g, input, d.first, Expression(opes[0]), pos, sv, d.out) &&
        if !Matches(d.out) then out == d.out
        else
          // the next operand starts where the first has ended
          d.Premises? && pos + d.out.len.value <= |input| &&
          Derives(g, input, d.rest, Operands(opes[1..]), pos + d.out.len.value, d.out.sv, d.restOut) &&
          if Matches(d.restOut) then MatchOf(out, d.out.len.value + d.restOut.len.value, d.restOut.sv)
          else Failure(out, d.restOut.sv)
    case Alternatives(opes, id) =>
      if id >= |opes| then Failure(out, sv)
      else
        // each alternative starts afresh, and the next is looked at only if this one fails
        !d.Axiom? && Derives(g, input, d.first, Expression(opes[id]), pos, Empty(), d.out) &&
        if Matches(d.out) then MatchOf(out, d.out.len.value, Values(sv.vals + d.out.sv.vals, |opes|, id))
        else
          d.Premises? && Derives(g, input, d.rest, Alternatives(opes, id + 1), pos, sv, d.restOut) && out == d.restOut
    case Rounds(x) =>
      if pos == |input| then MatchOf(out, 0, sv)
      else
        // the first failure ends the repetition, and leaves no trace
        !d.Axiom? && Derives(g, input, d.first, Expression(x), pos, sv, d.out) &&
        if !Matches(d.out) then MatchOf(out, 0, sv)
        else
          d.Premises? && pos + d.out.len.value <= |input| &&
          Derives(g, input, d.rest, goal, pos + d.out.len.value, d.out.sv, d.restOut) &&
          Matches(d.restOut) && MatchOf(out, d.out.len.value + d.restOut.len.value, d.restOut.sv)
    case Body(id) =>
      id < |g.rules| && d.Premise? && Derives(g, input, d.first, Expression(g.rules[id].ope), pos, Empty(), d.out) &&
      if !Matches(d.out) then Failure(out, sv)
      else
        var val := ValueOf(g, id, pos, d.out);
        if val.None? then Failure(out, sv)
        else if g.rules[id].ignore then MatchOf(out, d.out.len.value, sv)
        else MatchOf(out, d.out.len.value, WithVals(sv, [val.value]))
  }

  ghost predicate DerivesExpression<V>(g: Grammar<V>, input: string, d: Derivation<V>, o: Ope, pos: nat, sv: Values<V>,
      out: Outcome<V>)
    requires pos <= |input|
    decreases d, 0
  {
    match o
    case Literal(text) => if LooksAt(input, pos, text) then MatchOf(out, |text|, sv) else Failure(out, sv)
    case Class(chars) =>
      if exists c | c in chars :: LooksAt(input, pos, [c]) then MatchOf(out, 1, sv) else Failure(out, sv)
    case Any => if pos == |input| then Failure(out, sv) else MatchOf(out, 1, sv)
    case Sequence(opes) =>
      d.Premise? && Derives(g, input, d.first, Operands(opes), pos, Empty(), d.out) &&
      if Matches(d.out) then MatchOf(out, d.out.len.value, WithVals(sv, d.out.sv.vals)) else Failure(out, sv)
    case PrioritizedChoice(opes) =>
      d.Premise? && Derives(g, input, d.first, Alternatives(opes, 0), pos, sv, d.out) && out == d.out
    case ZeroOrMore(x) =>
      d.Premise? && Derives(g, input, d.first, Rounds(x), pos, sv, d.out) && out == d.out
    case OneOrMore(x) =>
      !d.Axiom? && Derives(g, input, d.first, Expression(x), pos, sv, d.out) &&
      if !Matches(d.out) then Failure(out, sv)
      else
        d.Premises? && pos + d.out.len.value <= |input| &&
        Derives(g, input, d.rest, Rounds(x), pos + d.out.len.value, d.out.sv, d.restOut) &&
        Matches(d.restOut) && MatchOf(out, d.out.len.value + d.restOut.len.value, d.restOut.sv)
    case Opt(x) =>
      d.Premise? && Derives(g, input, d.first, Expression(x), pos, sv, d.out) &&
      if Matches(d.out) then out == d.out else MatchOf(out, 0, sv)
    case AndPredicate(x) =>
      // looks ahead: matches nothing where x matches
      d.Premise? && Derives(g, input, d.first, Expression(x), pos, Empty(), d.out) &&
      if Matches(d.out) then MatchOf(out, 0, sv) else Failure(out, sv)
    case NotPredicate(x) =>
      // matches nothing where x fails
      d.Premise? && Derives(g, input, d.first, Expression(x), pos, Empty(), d.out) &&
      if Matches(d.out) then Failure(out, sv) else MatchOf(out, 0, sv)
    case Reference(id) =>
      d.Premise? && Derives(g, input, d.first, Body(id), pos, sv, d.out) && out == d.out
  }

  /** What a matched rule stands for: what its action makes of it, or else the first value below it. The action
      may reject the match. */
  function ValueOf<V>(g: Grammar<V>, id: nat, pos: nat, out: Outcome<V>): Option<V>
    requires id < |g.rules| && Matches(out)
  {
    var rule := g.rules[id];
    var seen := if rule.ope.PrioritizedChoice? then out.sv else Values(out.sv.vals, 0, 0);
    if rule.action.Some? then rule.action.value(pos, out.len.value, seen)
    else if |seen.vals| == 0 then Some(g.noValue)
    else Some(seen.vals[0])
  }

  // ----- whatever the parser finds has a derivation -----

  lemma {:induction false} FindExpression<V>(g: Grammar<V>, input: string, f: nat, o: Ope, pos: nat, sv: Values<V>)
    returns (d: Derivation<V>)
    requires pos <= |input| && Parse(g, input, f, o, pos, sv).Some?
    ensures Derives(g, input, d, Expression(o), pos, sv, Parse(g, input, f, o, pos, sv).value)
    decreases f
  {
    d := Axiom;
    match o
    case Literal(text) => LooksIsPrefix(input, pos, text);
    case Class(chars) => LooksIsNext(input, pos, chars);
    case Any =>
    case Sequence(opes) =>
      var x := FindOperands(g, input, f - 1, opes, pos, Empty());
      d := Premise(x, ParseSequence(g, input, f - 1, opes, pos, Empty()).value);
    case PrioritizedChoice(opes) =>
      var x := FindAlternatives(g, input, f - 1, opes, 0, pos, sv);
      d := Premise(x, ParseChoice(g, input, f - 1, opes, 0, pos, sv).value);
    case ZeroOrMore(x) =>
      var y, out := FindRounds(g, input, f - 1, x, pos, 0, sv);
      d := Premise(y, out);
    case OneOrMore(x) => d := FindOneOrMore(g, input, f, x, pos, sv);
    case Opt(x) =>
      var y := FindExpression(g, input, f - 1, x, pos, sv);
      FailureKeepsValues(g, input, f - 1, x, pos, sv);
      d := Premise(y, Parse(g, input, f - 1, x, pos, sv).value);
    case AndPredicate(x) =>
      var y := FindExpression(g, input, f - 1, x, pos, Empty());
      d := Premise(y, Parse(g, input, f - 1, x, pos, Empty()).value);
    case NotPredicate(x) =>
      var y := FindExpression(g, input, f - 1, x, pos, Empty());
      d := Premise(y, Parse(g, input, f - 1, x, pos, Empty()).value);
    case Reference(id) =>
      var y := FindBody(g, input, f - 1, id, pos, sv);
      d := Premise(y, Parse(g, input, f, o, pos, sv).value);
  }

  lemma LooksIsPrefix(input: string, pos: nat, text: string)
    requires pos <= |input|
    ensures LooksAt(input, pos, text) <==> text <= input[pos..]
  {
    if LooksAt(input, pos, text) {
      assert text == input[pos..][..|text|];
    }
  }

  lemma LooksIsNext(input: string, pos: nat, chars: set<char>)
    requires pos <= |input|
    ensures (exists c | c in chars :: LooksAt(input, pos, [c])) <==> pos < |input| && input[pos] in chars
  {
    forall c | c in chars
      ensures LooksAt(input, pos, [c]) <==> pos < |input| && input[pos] == c
    {
      if pos < |input| {
        assert input[pos + 0] == input[pos] && [c][0] == c;
      }
    }
    if pos < |input| && input[pos] in chars {
      assert LooksAt(input, pos, [input[pos]]);
    }
  }

  lemma {:induction false} FindOneOrMore<V>(g: Grammar<V>, input: string, f: nat, x: Ope, pos: nat, sv: Values<V>)
    returns (d: Derivation<V>)
    requires pos <= |input| && f > 0 && Parse(g, input, f, OneOrMore(x), pos, sv).Some?
    ensures Derives(g, input, d, Expression(OneOrMore(x)), pos, sv, Parse(g, input, f, OneOrMore(x), pos, sv).value)
    decreases f, 0
  {
    var r := Parse(g, input, f - 1, x, pos, sv).value;
    var y := FindExpression(g, input, f - 1, x, pos, sv);
    FailureKeepsValues(g, input, f - 1, x, pos, sv);
    d := Premise(y, r);
    if Matches(r) {
      var z, out := FindRounds(g, input, f - 1, x, pos, r.len.value, r.sv);
      d := Premises(y, r, z, out);
    }
  }

  lemma {:induction false} FindOperands<V>(g: Grammar<V>, input: string, f: nat, opes: seq<Ope>, pos: nat,
      sv: Values<V>) returns (d: Derivation<V>)
    requires pos <= |input| && ParseSequence(g, input, f, opes, pos, sv).Some?
    ensures Derives(g, input, d, Operands(opes), pos, sv, ParseSequence(g, input, f, opes, pos, sv).value)
    decreases f
  {
    d := Axiom;
    if opes != [] {
      var r := Parse(g, input, f - 1, opes[0], pos, sv).value;
      var y := FindExpression(g, input, f - 1, opes[0], pos, sv);
      d := Premise(y, r);
      if Matches(r) {
        var z := FindOperands(g, input, f - 1, opes[1..], pos + r.len.value, r.sv);
        d := Premises(y, r, z, ParseSequence(g, input, f - 1, opes[1..], pos + r.len.value, r.sv).value);
      }
    }
  }

  lemma {:induction false} FindAlternatives<V>(g: Grammar<V>, input: string, f: nat, opes: seq<Ope>, id: nat, pos: nat,
      sv: Values<V>) returns (d: Derivation<V>)
    requires pos <= |input| && ParseChoice(g, input, f, opes, id, pos, sv).Some?
    ensures Derives(g, input, d, Alternatives(opes, id), pos, sv, ParseChoice(g, input, f, opes, id, pos, sv).value)
    decreases f
  {
    d := Axiom;
    if id < |opes| {
      var r := Parse(g, input, f - 1, opes[id], pos, Empty()).value;
      var y := FindExpression(g, input, f - 1, opes[id], pos, Empty());
      d := Premise(y, r);
      if !Matches(r) {
        var z := FindAlternatives(g, input, f - 1, opes, id + 1, pos, sv);
        d := Premises(y, r, z, ParseChoice(g, input, f - 1, opes, id + 1, pos, sv).value);
      }
    }
  }

  /** The parser counts from `pos`, and has come `i` characters far. */
  lemma {:induction false} FindRounds<V>(g: Grammar<V>, input: string, f: nat, x: Ope, pos: nat, i: nat, sv: Values<V>)
    returns (d: Derivation<V>, out: Outcome<V>)
    requires pos + i <= |input| && ParseMany(g, input, f, x, pos, i, sv).Some?
    ensures Matches(out) && Derives(g, input, d, Rounds(x), pos + i, sv, out)
    ensures ParseMany(g, input, f, x, pos, i, sv) == Some(Outcome(Some(i + out.len.value), out.sv))
    decreases f
  {
    d, out := Axiom, Outcome(Some(0), sv);
    if pos + i < |input| {
      var r := Parse(g, input, f - 1, x, pos + i, sv).value;
      var y := FindExpression(g, input, f - 1, x, pos + i, sv);
      FailureKeepsValues(g, input, f - 1, x, pos + i, sv);
      d := Premise(y, r);
      if Matches(r) {
        ManyUnfolds(g, input, f, x, pos, i, sv, r);
        var z, rest := FindRounds(g, input, f - 1, x, pos, i + r.len.value, r.sv);
        assert pos + (i + r.len.value) == pos + i + r.len.value;
        d, out := Premises(y, r, z, rest), Outcome(Some(r.len.value + rest.len.value), rest.sv);
      }
    }
  }

  lemma {:induction false} FindBody<V>(g: Grammar<V>, input: string, f: nat, id: nat, pos: nat, sv: Values<V>)
    returns (d: Derivation<V>)
    requires pos <= |input| && ParseRule(g, input, f, id, pos).Some?
    ensures Derives(g, input, d, Body(id), pos, sv, Hold(g, id, ParseRule(g, input, f, id, pos).value, sv))
    decreases f
  {
    var r := Parse(g, input, f - 1, g.rules[id].ope, pos, Empty()).value;
    var y := FindExpression(g, input, f - 1, g.rules[id].ope, pos, Empty());
    ReducedIs(g, id, pos, r, sv);
    d := Premise(y, r);
  }

  lemma ReducedIs<V>(g: Grammar<V>, id: nat, pos: nat, r: Outcome<V>, sv: Values<V>)
    requires id < |g.rules|
    ensures var out := Hold(g, id, Reduce(g, id, pos, r), sv);
      if !Matches(r) then Failure(out, sv)
      else
        var val := ValueOf(g, id, pos, r);
        if val.None? then Failure(out, sv)
        else MatchOf(out, r.len.value, if g.rules[id].ignore then sv else WithVals(sv, [val.value]))
  {
  }

  // ----- whatever has a derivation is found by the parser -----

  lemma {:induction false} ReachExpression<V>(g: Grammar<V>, input: string, d: Derivation<V>, o: Ope, pos: nat,
      sv: Values<V>, out: Outcome<V>) returns (f: nat)
    requires pos <= |input| && DerivesExpression(g, input, d, o, pos, sv, out)
    ensures Parse(g, input, f, o, pos, sv) == Some(out)
    decreases d, 1
  {
    f := 1;
    match o
    case Literal(text) => LooksIsPrefix(input, pos, text);
    case Class(chars) => LooksIsNext(input, pos, chars);
    case Any =>
    case Sequence(opes) =>
      var w := ReachOperands(g, input, d.first, opes, pos, Empty(), d.out);
      f := w + 1;
    case PrioritizedChoice(opes) =>
      var w := ReachAlternatives(g, input, d.first, opes, 0, pos, sv, d.out);
      f := w + 1;
    case ZeroOrMore(x) =>
      var w := ReachRounds(g, input, d.first, x, pos, 0, sv, d.out);
      f := w + 1;
    case OneOrMore(x) => f := ReachOneOrMore(g, input, d, x, pos, sv, out);
    case Opt(x) =>
      var w := ReachExpression(g, input, d.first, x, pos, sv, d.out);
      FailureKeepsValues(g, input, w, x, pos, sv);
      f := w + 1;
    case AndPredicate(x) =>
      var w := ReachExpression(g, input, d.first, x, pos, Empty(), d.out);
      f := w + 1;
    case NotPredicate(x) =>
      var w := ReachExpression(g, input, d.first, x, pos, Empty(), d.out);
      f := w + 1;
    case Reference(id) =>
      var w := ReachBody(g, input, d.first, id, pos, sv, d.out);
      f := w + 1;
  }

  lemma {:induction false} ReachOneOrMore<V>(g: Grammar<V>, input: string, d: Derivation<V>, x: Ope, pos: nat,
      sv: Values<V>, out: Outcome<V>) returns (f: nat)
    requires pos <= |input| && DerivesExpression(g, input, d, OneOrMore(x), pos, sv, out)
    ensures Parse(g, input, f, OneOrMore(x), pos, sv) == Some(out)
    decreases d, 0
  {
    var w := ReachExpression(g, input, d.first, x, pos, sv, d.out);
    FailureKeepsValues(g, input, w, x, pos, sv);
    f := w + 1;
    if Matches(d.out) {
      var n := d.out.len.value;
      var w2 := ReachRounds(g, input, d.rest, x, pos, n, d.out.sv, d.restOut);
      MoreFuel(g, input, w, w + w2, x, pos, sv);
      MoreFuelMany(g, input, w2, w + w2, x, pos, n, d.out.sv);
      f := w + w2 + 1;
    }
  }

  lemma {:induction false} ReachOperands<V>(g: Grammar<V>, input: string, d: Derivation<V>, opes: seq<Ope>, pos: nat,
      sv: Values<V>, out: Outcome<V>) returns (f: nat)
    requires pos <= |input| && Derives(g, input, d, Operands(opes), pos, sv, out)
    ensures ParseSequence(g, input, f, opes, pos, sv) == Some(out)
    decreases d
  {
    f := 1;
    if opes != [] {
      var w := ReachExpression(g, input, d.first, opes[0], pos, sv, d.out);
      f := w + 1;
      if Matches(d.out) {
        var w2 := ReachOperands(g, input, d.rest, opes[1..], pos + d.out.len.value, d.out.sv, d.restOut);
        SequenceStep(g, input, w, w2, opes, pos, sv, d.out, d.restOut);
        f := w + w2 + 1;
      }
    }
  }

  lemma {:induction false} ReachAlternatives<V>(g: Grammar<V>, input: string, d: Derivation<V>, opes: seq<Ope>, id: nat,
      pos: nat, sv: Values<V>, out: Outcome<V>) returns (f: nat)
    requires pos <= |input| && Derives(g, input, d, Alternatives(opes, id), pos, sv, out)
    ensures ParseChoice(g, input, f, opes, id, pos, sv) == Some(out)
    decreases d
  {
    f := 1;
    if id < |opes| {
      var w := ReachExpression(g, input, d.first, opes[id], pos, Empty(), d.out);
      f := w + 1;
      if !Matches(d.out) {
        var w2 := ReachAlternatives(g, input, d.rest, opes, id + 1, pos, sv, d.restOut);
        MoreFuel(g, input, w, w + w2, opes[id], pos, Empty());
        MoreFuelChoice(g, input, w2, w + w2, opes, id + 1, pos, sv);
        f := w + w2 + 1;
      }
    }
  }

  lemma {:induction false} ReachRounds<V>(g: Grammar<V>, input: string, d: Derivation<V>, x: Ope, pos: nat, i: nat,
      sv: Values<V>, out: Outcome<V>) returns (f: nat)
    requires pos + i <= |input| && Derives(g, input, d, Rounds(x), pos + i, sv, out)
    ensures Matches(out) && ParseMany(g, input, f, x, pos, i, sv) == Some(Outcome(Some(i + out.len.value), out.sv))
    decreases d
  {
    f := 1;
    if pos + i < |input| {
      var w := ReachExpression(g, input, d.first, x, pos + i, sv, d.out);
      FailureKeepsValues(g, input, w, x, pos + i, sv);
      f := w + 1;
      if Matches(d.out) {
        var n := d.out.len.value;
        assert pos + (i + n) == pos + i + n;
        var w2 := ReachRounds(g, input, d.rest, x, pos, i + n, d.out.sv, d.restOut);
        ManyStep(g, input, w, w2, x, pos, i, sv, d.out);
        f := w + w2 + 1;
      }
    }
  }

  lemma {:induction false} ReachBody<V>(g: Grammar<V>, input: string, d: Derivation<V>, id: nat, pos: nat,
      sv: Values<V>, out: Outcome<V>) returns (f: nat)
    requires pos <= |input| && Derives(g, input, d, Body(id), pos, sv, out)
    ensures ParseRule(g, input, f, id, pos).Some? && Hold(g, id, ParseRule(g, input, f, id, pos).value, sv) == out
    decreases d
  {
    var w := ReachExpression(g, input, d.first, g.rules[id].ope, pos, Empty(), d.out);
    ReducedIs(g, id, pos, d.out, sv);
    f := w + 1;
  }

  // ----- the two are one -----

  ghost predicate IsDerived<V(!new)>(g: Grammar<V>, input: string, goal: Goal, pos: nat, sv: Values<V>, out: Outcome<V>)
    requires pos <= |input|
  {
    exists d :: Derives(g, input, d, goal, pos, sv, out)
  }

  /** An expression has an outcome exactly if a derivation says so. */
  lemma GivesWhatIsDerived<V(!new)>(g: Grammar<V>, input: string, o: Ope, pos: nat, sv: Values<V>, out: Outcome<V>)
    requires pos <= |input|
    ensures Gives(g, input, o, pos, sv, out) <==> IsDerived(g, input, Expression(o), pos, sv, out)
  {
    if Gives(g, input, o, pos, sv, out) {
      var f: nat :| Parse(g, input, f, o, pos, sv) == Some(out);
      var d := FindExpression(g, input, f, o, pos, sv);
    }
    if IsDerived(g, input, Expression(o), pos, sv, out) {
      var d :| Derives(g, input, d, Expression(o), pos, sv, out);
      var f := ReachExpression(g, input, d, o, pos, sv, out);
    }
  }

  /** The same for a rule, and what is left of it in the values around it. */
  lemma RuleGivesWhatIsDerived<V(!new)>(g: Grammar<V>, input: string, id: nat, pos: nat, sv: Values<V>, out: Outcome<V>)
    requires pos <= |input|
    ensures (exists m :: RuleGives(g, input, id, pos, m) && Hold(g, id, m, sv) == out) <==>
      IsDerived(g, input, Body(id), pos, sv, out)
  {
    if m :| RuleGives(g, input, id, pos, m) && Hold(g, id, m, sv) == out {
      var f: nat :| ParseRule(g, input, f, id, pos) == Some(m);
      var d := FindBody(g, input, f, id, pos, sv);
    }
    if IsDerived(g, input, Body(id), pos, sv, out) {
      var d :| Derives(g, input, d, Body(id), pos, sv, out);
      var f := ReachBody(g, input, d, id, pos, sv, out);
      assert RuleGives(g, input, id, pos, ParseRule(g, input, f, id, pos).value);
    }
  }

  // ----- a rule of a grammar in use -----

  /** The operators of a quoted phrase (canquick/candbgrammar.peg:49): any characters but the quote
      between two quotes. */
  function Phrase(): Ope {
    Sequence([Literal("\""), ZeroOrMore(NoQuote()), Literal("\"")])
  }

  function NoQuote(): Ope {
    Sequence([NotPredicate(Literal("\"")), Any])
  }

  /** `n` characters from `pos` on are a quoted phrase. */
  predicate IsPhrase(input: string, pos: nat, n: nat) {
    2 <= n && pos + n <= |input| && input[pos] == '"' && input[pos + n - 1] == '"' &&
    forall k | pos < k < pos + n - 1 :: input[k] != '"'
  }

  /** Where the next quote is, or the end of the input. */
  function NextQuote(input: string, pos: nat): (q: nat)
    requires pos <= |input|
    ensures pos <= q <= |input| && (q < |input| ==> input[q] == '"') && forall k | pos <= k < q :: input[k] != '"'
    decreases |input| - pos
  {
    if pos == |input| || input[pos] == '"' then pos else NextQuote(input, pos + 1)
  }

  lemma QuoteIsNext(input: string, pos: nat)
    requires pos <= |input|
    ensures "\"" <= input[pos..] <==> pos < |input| && input[pos] == '"'
  {
  }

  lemma LastOperand<V>(g: Grammar<V>, input: string, f: nat, x: Ope, pos: nat, sv: Values<V>, r: Outcome<V>)
    requires pos <= |input| && f >= 2 && Parse(g, input, f - 1, x, pos, sv) == Some(r)
    ensures ParseSequence(g, input, f, [x], pos, sv) == Some(r)
  {
    assert [x][1..] == [];
    if r.len.Some? {
      assert ParseSequence(g, input, f - 1, [x][1..], pos + r.len.value, r.sv) == Some(Outcome(Some(0), r.sv));
    }
  }

  lemma FirstFails<V>(g: Grammar<V>, input: string, f: nat, x: Ope, rest: seq<Ope>, pos: nat, sv: Values<V>,
      r: Outcome<V>)
    requires pos <= |input| && f >= 1 && Parse(g, input, f - 1, x, pos, sv) == Some(r) && r.len.None?
    ensures ParseSequence(g, input, f, [x] + rest, pos, sv) == Some(r)
  {
  }

  lemma FirstOperand<V>(g: Grammar<V>, input: string, f: nat, x: Ope, rest: seq<Ope>, pos: nat, sv: Values<V>,
      r: Outcome<V>, s: Outcome<V>)
    requires pos <= |input| && f >= 1 && Parse(g, input, f - 1, x, pos, sv) == Some(r) && r.len.Some?
    requires ParseSequence(g, input, f - 1, rest, pos + r.len.value, r.sv) == Some(s)
    ensures ParseSequence(g, input, f, [x] + rest, pos, sv) ==
      Some(if s.len.None? then s else Outcome(Some(r.len.value + s.len.value), s.sv))
  {
    assert ([x] + rest)[1..] == rest;
  }

  /** One character that is no quote. */
  lemma NoQuoteTakesOne<V>(g: Grammar<V>, input: string, f: nat, pos: nat, sv: Values<V>)
    requires pos < |input| && f >= 5
    ensures Parse(g, input, f, NoQuote(), pos, sv) == Some(Outcome(if input[pos] == '"' then None else Some(1), sv))
  {
    QuoteIsNext(input, pos);
    var e := Empty<V>();
    var not := NotPredicate(Literal("\""));
    assert Parse(g, input, f - 3, Literal("\""), pos, e) ==
      Some(Outcome(if input[pos] == '"' then Some(1) else None, e));
    assert [not, Any] == [not] + [Any] && sv.vals + [] == sv.vals;
    if input[pos] != '"' {
      LastOperand(g, input, f - 2, Any, pos, e, Outcome(Some(1), e));
      FirstOperand(g, input, f - 1, not, [Any], pos, e, Outcome(Some(0), e), Outcome(Some(1), e));
    } else {
      FirstFails(g, input, f - 1, not, [Any], pos, e, Outcome(None, e));
    }
  }

  lemma {:induction false} RoundsStopAtQuote<V>(g: Grammar<V>, input: string, f: nat, pos: nat, i: nat, sv: Values<V>)
    requires pos + i <= |input| && f >= |input| - (pos + i) + 6
    ensures ParseMany(g, input, f, NoQuote(), pos, i, sv) == Some(Outcome(Some(NextQuote(input, pos + i) - pos), sv))
    decreases |input| - (pos + i)
  {
    if pos + i < |input| {
      NoQuoteTakesOne(g, input, f - 1, pos + i, sv);
      if input[pos + i] != '"' {
        ManyUnfolds(g, input, f, NoQuote(), pos, i, sv, Outcome(Some(1), sv));
        RoundsStopAtQuote(g, input, f - 1, pos, i + 1, sv);
      }
    }
  }

  /** The expression matches a quoted phrase and nothing else. */
  lemma PhraseMatchesExactlyWhen<V>(g: Grammar<V>, input: string, pos: nat, sv: Values<V>, n: nat)
    requires pos <= |input|
    ensures Gives(g, input, Phrase(), pos, sv, Outcome(Some(n), sv)) <==> IsPhrase(input, pos, n)
  {
    var f := |input| + 12;
    var end := PhraseParses(g, input, pos, sv);
    assert Gives(g, input, Phrase(), pos, sv, Outcome(end, sv));
    if Gives(g, input, Phrase(), pos, sv, Outcome(Some(n), sv)) {
      OneOutcome(g, input, Phrase(), pos, sv, Outcome(end, sv), Outcome(Some(n), sv));
    }
    if IsPhrase(input, pos, n) {
      assert NextQuote(input, pos + 1) == pos + n - 1;
    }
  }

  lemma PhraseParses<V>(g: Grammar<V>, input: string, pos: nat, sv: Values<V>) returns (end: Option<nat>)
    requires pos <= |input|
    ensures Gives(g, input, Phrase(), pos, sv, Outcome(end, sv))
    ensures pos == |input| || input[pos] != '"' ==> end == None
    ensures pos < |input| && input[pos] == '"' ==> end == AfterQuote(input, pos)
  {
    var f := |input| + 12;
    var e := Empty<V>();
    var quote, others := Literal("\""), ZeroOrMore(NoQuote());
    QuoteIsNext(input, pos);
    end := None;
    assert [quote, others, quote] == [quote] + [others, quote] && sv.vals + [] == sv.vals;
    if pos < |input| && input[pos] == '"' {
      end := AfterQuote(input, pos);
      var rest := OthersParse(g, input, f - 2, pos + 1, e);
      FirstOperand(g, input, f - 1, quote, [others, quote], pos, e, Outcome(Some(1), e), rest);
    } else {
      FirstFails(g, input, f - 1, quote, [others, quote], pos, e, Outcome(None, e));
    }
    assert Parse(g, input, f, Phrase(), pos, sv) == Some(Outcome(end, sv));
  }

  /** The length of what begins with a quote here and ends with the next. */
  function AfterQuote(input: string, pos: nat): Option<nat>
    requires pos < |input|
  {
    var q := NextQuote(input, pos + 1);
    if q == |input| then None else Some(q + 1 - pos)
  }

  lemma OthersParse<V>(g: Grammar<V>, input: string, f: nat, pos: nat, e: Values<V>) returns (r: Outcome<V>)
    requires pos <= |input| && f >= |input| - pos + 8
    ensures var q := NextQuote(input, pos); r == Outcome(if q == |input| then None else Some(q + 1 - pos), e)
    ensures ParseSequence(g, input, f, [ZeroOrMore(NoQuote()), Literal("\"")], pos, e) == Some(r)
  {
    var quote, others := Literal("\""), ZeroOrMore(NoQuote());
    var q := NextQuote(input, pos);
    QuoteIsNext(input, q);
    RoundsStopAtQuote(g, input, f - 2, pos, 0, e);
    var last := Outcome(if q == |input| then None else Some(1), e);
    LastOperand(g, input, f - 1, quote, q, e, last);
    assert [others, quote] == [others] + [quote];
    FirstOperand(g, input, f, others, [quote], pos, e, Outcome(Some(q - pos), e), last);
    r := Outcome(if q == |input| then None else Some(q + 1 - pos), e);
  }
}
