/** What a symbol's value is (at91bootstrap/config/symbol.c:117-223, 289-419), said of any solution of the equations
    and in terms of its definition alone: which prompt, select, default or range decides. */
module KconfigMeaning {
  import opened KconfigExpr
  import opened KconfigSymbols
  import opened Wrappers

  datatype Kind = Defaults | Ranges

  /** Property number `k` is a default (or range) and its condition is not `n`. */
  predicate Applies(kind: Kind, props: seq<Property>, a: Assignment, k: nat) {
    k < |props| && (if kind == Defaults then props[k].Default? else props[k].Range?) &&
    ValueOrYes(props[k].visible, a) != NO
  }

  /** It is the first of them. */
  ghost predicate Decides(kind: Kind, props: seq<Property>, a: Assignment, k: nat) {
    Applies(kind, props, a, k) && forall j: nat | j < k :: !Applies(kind, props, a, j)
  }

  function First(kind: Kind, props: seq<Property>, a: Assignment): Option<Property> {
    if kind == Defaults then FirstDefault(props, a) else FirstRange(props, a)
  }

  /** The first default, or range, that applies is taken; none is taken only if none applies. */
  lemma {:induction false} FirstExactlyWhen(kind: Kind, props: seq<Property>, a: Assignment)
    ensures forall k: nat | Decides(kind, props, a, k) :: First(kind, props, a) == Some(props[k])
    ensures First(kind, props, a).None? <==> forall k: nat :: !Applies(kind, props, a, k)
    ensures First(kind, props, a).Some? <==> exists k: nat :: Decides(kind, props, a, k)
  {
    if Applies(kind, props, a, 0) {
      assert Decides(kind, props, a, 0);
    } else if props != [] {
      FirstExactlyWhen(kind, props[1..], a);
      forall k: nat
        ensures Applies(kind, props, a, k + 1) <==> Applies(kind, props[1..], a, k)
        ensures Decides(kind, props, a, k + 1) <==> Decides(kind, props[1..], a, k)
      {
        LaterProperty(kind, props, a, k);
      }
      if k: nat :| Decides(kind, props[1..], a, k) {
        assert Decides(kind, props, a, k + 1);
      }
      forall k: nat | Decides(kind, props, a, k)
        ensures First(kind, props, a) == Some(props[k])
      {
        assert Decides(kind, props[1..], a, k - 1);
      }
      forall k: nat | Applies(kind, props, a, k)
        ensures First(kind, props, a).Some?
      {
        assert Applies(kind, props[1..], a, k - 1);
      }
    }
  }

  lemma LaterProperty(kind: Kind, props: seq<Property>, a: Assignment, k: nat)
    requires props != [] && !Applies(kind, props, a, 0)
    ensures Applies(kind, props, a, k + 1) <==> Applies(kind, props[1..], a, k)
    ensures Decides(kind, props, a, k + 1) <==> Decides(kind, props[1..], a, k)
  {
    forall j: nat
      ensures Applies(kind, props, a, j + 1) <==> Applies(kind, props[1..], a, j)
    {
    }
    if Decides(kind, props[1..], a, k) {
      forall j: nat | j < k + 1
        ensures !Applies(kind, props, a, j)
      {
        assert j > 0 ==> !Applies(kind, props[1..], a, j - 1);
      }
    }
    if Decides(kind, props, a, k + 1) {
      forall j: nat | j < k
        ensures !Applies(kind, props[1..], a, j)
      {
        assert !Applies(kind, props, a, j + 1);
      }
    }
  }

  // ----- what prompts and selects allow -----

  predicate PromptAllows(props: seq<Property>, a: Assignment, k: nat, t: Tristate) {
    k < |props| && props[k].Prompt? && ValueOrYes(props[k].visible, a) >= t
  }

  /** Some prompt can be seen with at least `t`. */
  ghost predicate PromptsReach(props: seq<Property>, a: Assignment, t: Tristate) {
    exists k: nat :: PromptAllows(props, a, k, t)
  }

  predicate SelectsReach(d: Definition, a: Assignment, t: Tristate) {
    d.revDep.Some? && Value(d.revDep.value, a) >= t
  }

  lemma {:induction false} PromptsValueExactlyWhen(props: seq<Property>, a: Assignment, t: Tristate)
    requires t != NO
    ensures PromptsValue(props, a) >= t <==> PromptsReach(props, a, t)
  {
    if props != [] {
      PromptsValueExactlyWhen(props[1..], a, t);
      if PromptAllows(props, a, 0, t) {
      } else if PromptsReach(props, a, t) {
        var k: nat :| PromptAllows(props, a, k, t);
        assert PromptAllows(props[1..], a, k - 1, t);
      }
      if k: nat :| PromptAllows(props[1..], a, k, t) {
        assert PromptAllows(props, a, k + 1, t);
      }
    }
  }

  /** What it takes to make up at least `t`: for a symbol with two values, `m` is enough. */
  function Enough(T: Table, s: Symbol, t: Tristate): Tristate {
    if GetType(T, s) == Boolean && t != NO then MOD else t
  }

  /** A symbol is as visible as its most visible prompt, where only a tristate symbol stays at `m`. */
  lemma VisibleExactlyWhen(T: Table, s: Symbol, a: Assignment, t: Tristate)
    requires t != NO
    ensures VisibleValue(T, s, a) >= t <==> PromptsReach(T.defs(s).props, a, if GetType(T, s) == Tri then t else MOD)
  {
    PromptsValueExactlyWhen(T.defs(s).props, a, if GetType(T, s) == Tri then t else MOD);
  }

  /** The user's value counts: there is one, and the symbol can be seen. */
  ghost predicate UserDecides(T: Table, s: Symbol, a: Assignment) {
    T.defs(s).hasUser && PromptsReach(T.defs(s).props, a, MOD)
  }

  /** The default that decides, if any, gives at least `t` under its condition. */
  ghost predicate DefaultReaches(props: seq<Property>, a: Assignment, t: Tristate) {
    exists k: nat :: Decides(Defaults, props, a, k) && Value(props[k].value, a) >= t &&
      ValueOrYes(props[k].visible, a) >= t
  }

  lemma DefaultTriExactlyWhen(props: seq<Property>, a: Assignment, t: Tristate)
    requires t != NO
    ensures DefaultTri(FirstDefault(props, a), a) >= t <==> DefaultReaches(props, a, t)
  {
    FirstExactlyWhen(Defaults, props, a);
    if FirstDefault(props, a).Some? {
      var k: nat :| Decides(Defaults, props, a, k);
      assert First(Defaults, props, a) == Some(props[k]);
    }
  }

  /** The value of a boolean or tristate symbol in any solution: at least `t` exactly if it is selected
      with that much, or the user's value and a prompt both reach it, or, where the user has no say,
      the first default that applies does. */
  lemma LogicalValueExactlyWhen(T: Table, s: Symbol, a: Assignment, t: Tristate)
    requires Solves(T, a) && s.Named? && IsLogical(s) && t != NO
    ensures var d, enough := T.defs(s), Enough(T, s, t);
      a(s).tri >= t <==>
        SelectsReach(d, a, enough) ||
        if UserDecides(T, s, a) then d.userTri >= enough && PromptsReach(d.props, a, enough)
        else DefaultReaches(d.props, a, enough)
  {
    var d, enough := T.defs(s), Enough(T, s, t);
    assert a(s) == Seen(s, Equation(T, s, a));
    VisibleExactlyWhen(T, s, a, MOD);
    VisibleExactlyWhen(T, s, a, t);
    DefaultTriExactlyWhen(d.props, a, enough);
  }

  // ----- text and numbers -----

  /** The text before its range is looked at. */
  ghost predicate IsChosenText(T: Table, s: Symbol, a: Assignment, text: string) {
    var d := T.defs(s);
    if UserDecides(T, s, a) then text == d.userText
    else
      (forall k: nat | Decides(Defaults, d.props, a, k) :: text == SymbolText(d.props[k], a)) &&
      ((forall k: nat :: !Applies(Defaults, d.props, a, k)) ==> text == "")
  }

  /** What a default hands on: the text of its symbol, which for a boolean or tristate symbol is always
      "n", and nothing if it is no symbol. */
  function SymbolText(p: Property, a: Assignment): string
    requires p.Default?
  {
    match p.value
    case Sym(t) => if TypeOf(t) == Boolean || TypeOf(t) == Tri then "n" else a(t).str
    case _ => ""
  }

  /** The number that a bound stands for, as read for a symbol of the given base. */
  function Bound(T: Table, t: Symbol, base: int, a: Assignment): int {
    match TypeOf(t)
    case Int => T.strtol(a(t).str, 10)
    case Hex => T.strtol(a(t).str, 16)
    case Boolean => T.strtol("n", base)
    case Tri => T.strtol("n", base)
    case _ => T.strtol(a(t).str, base)
  }

  /** Below the range that decides its lower bound is stored, above it the upper one. */
  predicate FitsRange(T: Table, s: Symbol, a: Assignment, p: Property, text: string, stored: string)
    requires p.Range?
  {
    var base := if TypeOf(s) == Int then 10 else 16;
    var write := if TypeOf(s) == Int then T.formatInt else T.formatHex;
    var n, low, high := T.strtol(text, base), Bound(T, p.low, base, a), Bound(T, p.high, base, a);
    (n < low ==> stored == write(low)) &&
    (low <= n <= high ==> stored == text) &&
    (low <= n && high < n ==> stored == write(high))
  }

  predicate IsNumber(s: Symbol) {
    TypeOf(s) == Int || TypeOf(s) == Hex
  }

  lemma ClampFits(T: Table, s: Symbol, a: Assignment, p: Property, text: string)
    requires IsNumber(s) && p.Range?
    ensures FitsRange(T, s, a, p, text, Clamp(T, s, text, Some(p), a))
  {
    assert RangeValue(T, p.low, Base(s, 10), a) == Bound(T, p.low, Base(s, 10), a);
    assert RangeValue(T, p.high, Base(s, 10), a) == Bound(T, p.high, Base(s, 10), a);
  }

  lemma DefaultIsChosen(T: Table, s: Symbol, a: Assignment)
    requires !UserDecides(T, s, a)
    ensures IsChosenText(T, s, a, DefaultText(FirstDefault(T.defs(s).props, a), a))
  {
    var props := T.defs(s).props;
    FirstExactlyWhen(Defaults, props, a);
    forall k: nat | Decides(Defaults, props, a, k)
      ensures DefaultText(FirstDefault(props, a), a) == SymbolText(props[k], a)
    {
      assert First(Defaults, props, a) == Some(props[k]);
    }
  }

  lemma TextIsClamped(T: Table, s: Symbol, a: Assignment) returns (text: string)
    ensures IsChosenText(T, s, a, text)
    ensures TextValue(T, s, a) == Clamp(T, s, text, FirstRange(T.defs(s).props, a), a)
  {
    VisibleExactlyWhen(T, s, a, MOD);
    if UserDecides(T, s, a) {
      text := T.defs(s).userText;
    } else {
      DefaultIsChosen(T, s, a);
      text := DefaultText(FirstDefault(T.defs(s).props, a), a);
    }
  }

  /** The value of a text or number symbol in any solution. */
  lemma TextValueIs(T: Table, s: Symbol, a: Assignment) returns (text: string)
    requires Solves(T, a) && s.Named? && (IsNumber(s) || TypeOf(s) == Str)
    ensures IsChosenText(T, s, a, text)
    ensures !IsNumber(s) || (forall k: nat :: !Applies(Ranges, T.defs(s).props, a, k)) ==> a(s).str == text
    ensures IsNumber(s) ==> forall k: nat | Decides(Ranges, T.defs(s).props, a, k) ::
      FitsRange(T, s, a, T.defs(s).props[k], text, a(s).str)
  {
    var props := T.defs(s).props;
    assert a(s) == Seen(s, Equation(T, s, a));
    text := TextIsClamped(T, s, a);
    FirstExactlyWhen(Ranges, props, a);
    forall k: nat | IsNumber(s) && Decides(Ranges, props, a, k)
      ensures FitsRange(T, s, a, props[k], text, a(s).str)
    {
      assert First(Ranges, props, a) == Some(props[k]);
      ClampFits(T, s, a, props[k], text);
    }
  }

  /** What goes into the configuration file. */
  lemma WrittenExactlyWhen(T: Table, s: Symbol, a: Assignment)
    requires s.Named? && TypeOf(s) != Unknown && TypeOf(s) != Other
    ensures var d := T.defs(s);
      Equation(T, s, a).write <==>
        !d.auto &&
        (PromptsReach(d.props, a, MOD) ||
         (IsLogical(s) && (SelectsReach(d, a, MOD) || exists k: nat :: Applies(Defaults, d.props, a, k))) ||
         (!IsLogical(s) && exists k: nat :: Decides(Defaults, d.props, a, k) && d.props[k].value.Sym?))
  {
    var d := T.defs(s);
    VisibleExactlyWhen(T, s, a, MOD);
    FirstExactlyWhen(Defaults, d.props, a);
    if k: nat :| Decides(Defaults, d.props, a, k) {
      assert First(Defaults, d.props, a) == Some(d.props[k]);
      assert Applies(Defaults, d.props, a, k);
    }
  }
}
