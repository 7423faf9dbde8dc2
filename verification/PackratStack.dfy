/** The value stack of the PEG engine (canquick/peglib.h:854-871, 924-1230, 2209-2285): semantic values live in frames
    that are used again, and a sequence pushes one and never pops it. No frame in use is handed out twice, and what
    the engine leaves in the frames is what the parser with fresh values computes. */
module PackratStack {
  import opened Packrat
  import opened Wrappers

  class StackParser<V> {
    const g: Grammar<V>
    const input: string
    var frames: seq<Values<V>>     // value_stack
    var size: nat                  // value_stack_size

    /** `at` is in use. */
    ghost predicate InUse(at: nat)
      reads this
    {
      at < size <= |frames|
    }

    /** Frames in use before, other than `at`, are as they were, and still in use. */
    twostate predicate OthersStay(at: nat)
      reads this
    {
      old(size) <= size <= |frames| && old(size) <= |old(frames)| <= |frames| &&
      forall j | 0 <= j < old(size) && j != at :: frames[j] == old(frames)[j]
    }

    constructor (grammar: Grammar<V>, text: string)
      ensures g == grammar && input == text && InUse(0) && size == 1 && frames == [Empty()]
    {
      g, input, frames, size := grammar, text, [Empty()], 1;
    }

    /** `push`: the next frame, emptied; a new one if there is none. */
    method Push() returns (child: nat)
      requires size <= |frames|
      modifies this
      ensures child == old(size) && size == old(size) + 1 && InUse(child) && frames[child] == Empty()
      ensures |old(frames)| <= |frames| && forall j | 0 <= j < child :: frames[j] == old(frames)[j]
    {
      if size == |frames| {
        frames := frames + [Empty()];
      }
      frames := frames[size := Empty()];
      child, size := size, size + 1;
    }

    /** What is in frame `at` and the length parsed, as the outcome of the parser with fresh values. */
    ghost function Left(at: nat, len: Option<nat>): Outcome<V>
      reads this
      requires at < |frames|
    {
      Outcome(len, frames[at])
    }

    /** The `parse` of the operators, on frame `at`. */
    method Run(o: Ope, pos: nat, at: nat, fuel: nat) returns (r: Option<Option<nat>>)
      requires pos <= |input| && InUse(at)
      modifies this
      ensures InUse(at) && OthersStay(at)
      ensures var plain := Parse(g, input, fuel, o, pos, old(frames[at]));
        if r.None? then plain.None? else plain == Some(Left(at, r.value))
      decreases fuel, 1
    {
      if fuel == 0 {
        return None;
      }
      match o
      case Literal(text) =>
        r := Some(if text <= input[pos..] then Some(|text|) else None);
      case Class(chars) =>
        r := Some(if pos < |input| && input[pos] in chars then Some(1) else None);
      case Any =>
        r := Some(if pos < |input| then Some(1) else None);
      case Sequence(opes) =>
        r := RunSequence(opes, pos, at, fuel - 1);
      case PrioritizedChoice(opes) =>
        r := RunChoice(opes, 0, pos, at, fuel - 1);
      case ZeroOrMore(x) =>
        r := RunMany(x, pos, 0, at, fuel - 1);
      case OneOrMore(x) =>
        r := Run(x, pos, at, fuel - 1);
        if r.Some? && r.value.Some? {
          r := RunMany(x, pos, r.value.value, at, fuel - 1);
        }
      case Opt(x) =>
        r := Attempt(x, pos, at, fuel - 1);
        if r.Some? && r.value.None? {
          r := Some(Some(0));
        }
      case AndPredicate(x) =>
        r := RunApart(x, pos, at, fuel - 1);
        if r.Some? {
          r := Some(if r.value.Some? then Some(0) else None);
        }
      case NotPredicate(x) =>
        r := RunApart(x, pos, at, fuel - 1);
        if r.Some? {
          r := Some(if r.value.Some? then None else Some(0));
        }
      case Reference(id) =>
        r := RunReference(id, pos, at, fuel - 1);
    }

    static ghost function AfterAttempt(before: Values<V>, plain: Outcome<V>): Values<V> {
      if plain.len.Some? then plain.sv else Restore(before, plain.sv)
    }

    /** One attempt of a repetition, on the frame it was given; if it fails, an extra value is dropped. */
    method Attempt(x: Ope, pos: nat, at: nat, fuel: nat) returns (r: Option<Option<nat>>)
      requires pos <= |input| && InUse(at)
      modifies this
      ensures InUse(at) && OthersStay(at)
      ensures var plain := Parse(g, input, fuel, x, pos, old(frames[at]));
        if r.None? then plain.None? else plain.Some? && plain.value.len == r.value
      ensures r.Some? ==>
        frames[at] == AfterAttempt(old(frames[at]), Parse(g, input, fuel, x, pos, old(frames[at])).value)
      decreases fuel, 2
    {
      var saved := |frames[at].vals|;
      r := Run(x, pos, at, fuel);
      if r.Some? && r.value.None? && |frames[at].vals| > saved {
        frames := frames[at := frames[at].(vals := frames[at].vals[..saved] + frames[at].vals[saved + 1..])];
      }
    }

    /** A predicate parses on a frame of its own, which it pops. */
    method RunApart(x: Ope, pos: nat, ghost at: nat, fuel: nat) returns (r: Option<Option<nat>>)
      requires pos <= |input| && InUse(at)
      modifies this
      ensures InUse(at) && OthersStay(at) && frames[at] == old(frames[at])
      ensures var plain := Parse(g, input, fuel, x, pos, Empty());
        if r.None? then plain.None? else plain.Some? && plain.value.len == r.value
      decreases fuel, 2
    {
      var child := Push();
      r := Run(x, pos, child, fuel);
      size := size - 1;
    }

    /** A sequence parses on a frame of its own, and does not pop it. */
    method RunSequence(opes: seq<Ope>, pos: nat, at: nat, fuel: nat) returns (r: Option<Option<nat>>)
      requires pos <= |input| && InUse(at)
      modifies this
      ensures InUse(at) && OthersStay(at)
      ensures var plain := ParseSequence(g, input, fuel, opes, pos, Empty());
        if r.None? then plain.None? else plain.Some? && plain.value.len == r.value
      ensures r.Some? && r.value.None? ==> frames[at] == old(frames[at])
      ensures r.Some? && r.value.Some? ==>
        var own := ParseSequence(g, input, fuel, opes, pos, Empty()).value.sv.vals;
        frames[at] == old(frames[at]).(vals := old(frames[at]).vals + own)
      decreases fuel, 2
    {
      var child := Push();
      r := RunOperands(opes, pos, child, fuel);
      if r.Some? && r.value.Some? {
        frames := frames[at := frames[at].(vals := frames[at].vals + frames[child].vals)];
      }
    }

    method RunOperands(opes: seq<Ope>, pos: nat, at: nat, fuel: nat) returns (r: Option<Option<nat>>)
      requires pos <= |input| && InUse(at)
      modifies this
      ensures InUse(at) && OthersStay(at)
      ensures var plain := ParseSequence(g, input, fuel, opes, pos, old(frames[at]));
        if r.None? then plain.None? else plain == Some(Left(at, r.value))
      decreases fuel, 0
    {
      if fuel == 0 {
        return None;
      }
      if opes == [] {
        return Some(Some(0));
      }
      r := Run(opes[0], pos, at, fuel - 1);
      if r.Some? && r.value.Some? {
        var len := r.value.value;
        r := RunOperands(opes[1..], pos + len, at, fuel - 1);
        if r.Some? && r.value.Some? {
          r := Some(Some(len + r.value.value));
        }
      }
    }

    /** Each alternative parses on a frame of its own, which is popped. */
    method RunChoice(opes: seq<Ope>, id: nat, pos: nat, at: nat, fuel: nat) returns (r: Option<Option<nat>>)
      requires pos <= |input| && InUse(at)
      modifies this
      ensures InUse(at) && OthersStay(at)
      ensures var plain := ParseChoice(g, input, fuel, opes, id, pos, old(frames[at]));
        if r.None? then plain.None? else plain == Some(Left(at, r.value))
      decreases fuel, 0
    {
      if fuel == 0 {
        return None;
      }
      if id >= |opes| {
        return Some(None);
      }
      var child := Push();
      r := Run(opes[id], pos, child, fuel - 1);
      if r.Some? && r.value.Some? {
        frames := frames[at := Values(frames[at].vals + frames[child].vals, |opes|, id)];
      }
      size := size - 1;
      if r.Some? && r.value.None? {
        r := RunChoice(opes, id + 1, pos, at, fuel - 1);
      }
    }

    /** The loop of the repetition operators, on the frame they were given. */
    method RunMany(x: Ope, pos: nat, i: nat, at: nat, fuel: nat) returns (r: Option<Option<nat>>)
      requires pos + i <= |input| && InUse(at)
      modifies this
      ensures InUse(at) && OthersStay(at)
      ensures var plain := ParseMany(g, input, fuel, x, pos, i, old(frames[at]));
        if r.None? then plain.None? else plain == Some(Left(at, r.value))
      decreases fuel, 0
    {
      if fuel == 0 {
        return None;
      }
      if pos + i == |input| {
        return Some(Some(i));
      }
      ghost var sv := frames[at];
      r := Attempt(x, pos + i, at, fuel - 1);
      if r.None? {
        return;
      }
      if r.value.None? {
        return Some(Some(i));
      }
      ManyUnfolds(g, input, fuel, x, pos, i, sv, Parse(g, input, fuel - 1, x, pos + i, sv).value);
      r := RunMany(x, pos, i + r.value.value, at, fuel - 1);
    }

    /** `Holder::parse`: the rule on a frame of its own, which is popped; its value goes to frame `at`. */
    method RunReference(id: nat, pos: nat, at: nat, fuel: nat) returns (r: Option<Option<nat>>)
      requires pos <= |input| && InUse(at)
      modifies this
      ensures InUse(at) && OthersStay(at)
      ensures var m := ParseRule(g, input, fuel, id, pos);
        if r.None? then m.None? else m.Some? && Hold(g, id, m.value, old(frames[at])) == Left(at, r.value)
      decreases fuel, 0
    {
      if fuel == 0 || id >= |g.rules| {
        return None;
      }
      var child := Push();
      r := Run(g.rules[id].ope, pos, child, fuel - 1);
      var m := None;
      if r.Some? {
        m := Some(Reduce(g, id, pos, Outcome(r.value, frames[child])));
      }
      size := size - 1;
      match m
      case None =>
      case Some(NoMatch) => r := Some(None);
      case Some(Matched(len, val)) =>
        if !g.rules[id].ignore {
          frames := frames[at := frames[at].(vals := frames[at].vals + [val])];
        }
    }
  }
}
