/** The equations that symbol values have to satisfy (at91bootstrap/config/symbol.c:65-223, 289-419) in tables
    without choices, and that they have one solution where dependencies do not go round in circles. */
module KconfigSymbols {
  import opened KconfigExpr
  import opened Wrappers

  /** A property of a symbol. `visible` is its condition; NULL means always. */
  datatype Property =
    | Prompt(visible: Option<Expr>)
    | Default(visible: Option<Expr>, value: Expr)
    | Range(visible: Option<Expr>, low: Symbol, high: Symbol)
    | Select(visible: Option<Expr>, target: Symbol)

  datatype Definition = Definition(
    name: string,
    props: seq<Property>,
    revDep: Option<Expr>,      // what `select` statements elsewhere ask for
    hasUser: bool,             // SYMBOL_DEF_USER
    userTri: Tristate,
    userText: string,
    auto: bool)                // SYMBOL_AUTO

  /** The table and what it takes from elsewhere: `modules_val`, and the C library's number
      conversions. */
  datatype Table = Table(
    defs: Symbol -> Definition,
    modules: Tristate,
    strtol: (string, int) -> int,
    formatInt: int -> string,
    formatHex: int -> string)

  /** What the source stores in a symbol: `visible`, `rev_dep.tri`, `curr.tri`, `curr.val` and the
      SYMBOL_WRITE flag. */
  datatype Entry = Entry(visible: Tristate, revTri: Tristate, tri: Tristate, text: string, write: bool)

  predicate IsLogical(s: Symbol) {
    TypeOf(s) == Boolean || TypeOf(s) == Tri
  }

  /** `sym_get_type` */
  function GetType(T: Table, s: Symbol): SymbolType {
    if TypeOf(s) == Tri && T.modules == NO then Boolean else TypeOf(s)
  }

  // ----- the equations that the values have to satisfy -----

  /** A boolean has no `mod`; it counts as `yes`. */
  function Promote(boolean: bool, t: Tristate): Tristate {
    if boolean && t == MOD then YES else t
  }

  function PromptsValue(props: seq<Property>, a: Assignment): Tristate {
    if props == [] then NO
    else if props[0].Prompt? then ApplyOp(OR, ValueOrYes(props[0].visible, a), PromptsValue(props[1..], a))
    else PromptsValue(props[1..], a)
  }

  function VisibleValue(T: Table, s: Symbol, a: Assignment): Tristate {
    Promote(GetType(T, s) != Tri, PromptsValue(T.defs(s).props, a))
  }

  function RevDepValue(T: Table, s: Symbol, a: Assignment): Tristate {
    var e := T.defs(s).revDep;
    Promote(GetType(T, s) == Boolean, if e.Some? then Value(e.value, a) else NO)
  }

  /** `sym_get_default_prop`: the first default whose condition is not `n`. */
  function FirstDefault(props: seq<Property>, a: Assignment): Option<Property> {
    if props == [] then None
    else if props[0].Default? && ValueOrYes(props[0].visible, a) != NO then Some(props[0])
    else FirstDefault(props[1..], a)
  }

  /** `sym_get_range_prop` */
  function FirstRange(props: seq<Property>, a: Assignment): Option<Property> {
    if props == [] then None
    else if props[0].Range? && ValueOrYes(props[0].visible, a) != NO then Some(props[0])
    else FirstRange(props[1..], a)
  }

  function DefaultTri(d: Option<Property>, a: Assignment): Tristate {
    if d.Some? && d.value.Default? then ApplyOp(AND, Value(d.value.value, a), ValueOrYes(d.value.visible, a)) else NO
  }

  /** User value if the symbol is visible, else the default; never less than what is selected. */
  function LogicalValue(T: Table, s: Symbol, a: Assignment): Tristate {
    var d, visible := T.defs(s), VisibleValue(T, s, a);
    var base := if visible != NO && d.hasUser then ApplyOp(AND, d.userTri, visible)
                else DefaultTri(FirstDefault(d.props, a), a);
    Promote(GetType(T, s) == Boolean, ApplyOp(OR, base, RevDepValue(T, s, a)))
  }

  /** `curr.val`: for boolean and tristate symbols it is never updated from "n". */
  function RawText(s: Symbol, v: SymVal): string {
    if IsLogical(s) then "n" else v.str
  }

  function DefaultText(d: Option<Property>, a: Assignment): string {
    if d.Some? && d.value.Default? && d.value.value.Sym? then RawText(d.value.value.s, a(d.value.value.s)) else ""
  }

  function Base(s: Symbol, otherwise: int): int {
    if TypeOf(s) == Int then 10 else if TypeOf(s) == Hex then 16 else otherwise
  }

  /** `sym_get_range_val` */
  function RangeValue(T: Table, s: Symbol, base: int, a: Assignment): int {
    T.strtol(RawText(s, a(s)), Base(s, base))
  }

  function Format(T: Table, s: Symbol, n: int): string {
    if TypeOf(s) == Int then T.formatInt(n) else T.formatHex(n)
  }

  /** `sym_validate_range`: a number outside its range is replaced by the bound it misses. */
  function Clamp(T: Table, s: Symbol, text: string, r: Option<Property>, a: Assignment): string {
    if (TypeOf(s) != Int && TypeOf(s) != Hex) || r.None? || !r.value.Range? then text
    else
      var base := Base(s, 10);
      var n := T.strtol(text, base);
      var low, high := RangeValue(T, r.value.low, base, a), RangeValue(T, r.value.high, base, a);
      if n < low then Format(T, s, low) else if n > high then Format(T, s, high) else text
  }

  /** `n` is in the range of the C library's conversions for numbers like `s`. */
  predicate ReadsBack(T: Table, s: Symbol, n: int) {
    T.strtol(Format(T, s, n), Base(s, 10)) == n
  }

  function Distance(m: int, n: int): int {
    if m < n then n - m else m - n
  }

  /** If the two bounds read back as they are written, the number stored lies in a range that is not empty,
      and one that was in it is left alone. */
  lemma RangeIsRespected(T: Table, s: Symbol, text: string, r: Property, a: Assignment)
    requires (TypeOf(s) == Int || TypeOf(s) == Hex) && r.Range?
    requires ReadsBack(T, s, RangeValue(T, r.low, Base(s, 10), a))
    requires ReadsBack(T, s, RangeValue(T, r.high, Base(s, 10), a))
    requires RangeValue(T, r.low, Base(s, 10), a) <= RangeValue(T, r.high, Base(s, 10), a)
    ensures var base := Base(s, 10);
      var low, high, n := RangeValue(T, r.low, base, a), RangeValue(T, r.high, base, a), T.strtol(text, base);
      var stored := T.strtol(Clamp(T, s, text, Some(r), a), base);
      low <= stored <= high && (low <= n <= high ==> Clamp(T, s, text, Some(r), a) == text) &&
      forall m: int | low <= m <= high :: Distance(stored, n) <= Distance(m, n)
  {
  }

  function TextValue(T: Table, s: Symbol, a: Assignment): string {
    var d := T.defs(s);
    var text := if VisibleValue(T, s, a) != NO && d.hasUser then d.userText
                else DefaultText(FirstDefault(d.props, a), a);
    Clamp(T, s, text, FirstRange(d.props, a), a)
  }

  /** A symbol goes into the configuration file if it can be seen, is selected, or gets a default. */
  function Written(T: Table, s: Symbol, a: Assignment): bool {
    var d, visible := T.defs(s), VisibleValue(T, s, a);
    var def := FirstDefault(d.props, a);
    !d.auto &&
    (visible != NO ||
     (IsLogical(s) && (RevDepValue(T, s, a) != NO || def.Some?)) ||
     (!IsLogical(s) && def.Some? && def.value.Default? && def.value.value.Sym?))
  }

  /** The right-hand side of the equation for `s`: its entry when all other symbols are as in `a`. */
  function Equation(T: Table, s: Symbol, a: Assignment): Entry {
    match s
    case SymYes => Entry(NO, NO, YES, "y", false)
    case SymMod => Entry(NO, NO, MOD, "m", false)
    case SymNo => Entry(NO, NO, NO, "n", false)
    case Quoted(text) => Entry(NO, NO, NO, text, false)
    case Named(_, typ) =>
      if typ == Unknown || typ == Other then Entry(NO, NO, NO, T.defs(s).name, false)
      else
        Entry(VisibleValue(T, s, a), RevDepValue(T, s, a),
              if IsLogical(s) then LogicalValue(T, s, a) else NO,
              if IsLogical(s) then "n" else TextValue(T, s, a),
              Written(T, s, a))
  }

  /** What expressions see of an entry: `curr.tri` and `sym_get_string_value`. */
  function Seen(s: Symbol, e: Entry): SymVal {
    SymVal(e.tri, if IsLogical(s) then TriText(e.tri) else e.text)
  }

  /** An assignment in which every symbol is what its equation says. */
  ghost predicate Solves(T: Table, a: Assignment) {
    forall s: Symbol :: a(s) == Seen(s, Equation(T, s, a))
  }

  // ----- which symbols an equation looks at -----

  function ExprSymbols(e: Expr): seq<Symbol> {
    match e
    case Sym(s) => [s]
    case Not(x) => ExprSymbols(x)
    case Comp(_, left, right) => [left, right]
    case Bin(_, l, r) => ExprSymbols(l) + ExprSymbols(r)
  }

  function OptSymbols(e: Option<Expr>): seq<Symbol> {
    if e.Some? then ExprSymbols(e.value) else []
  }

  /** A select is worked out as part of the reverse dependency of its target. */
  function PropSymbols(p: Property): seq<Symbol> {
    match p
    case Prompt(visible) => OptSymbols(visible)
    case Default(visible, value) => OptSymbols(visible) + ExprSymbols(value)
    case Range(visible, low, high) => OptSymbols(visible) + [low, high]
    case Select(_, _) => []
  }

  function PropsSymbols(props: seq<Property>): seq<Symbol> {
    if props == [] then [] else PropSymbols(props[0]) + PropsSymbols(props[1..])
  }

  /** Everything that working out `s` may ask for. */
  function Refs(T: Table, s: Symbol): seq<Symbol> {
    if s.Named? then OptSymbols(T.defs(s).revDep) + PropsSymbols(T.defs(s).props) else []
  }

  /** No symbol depends on itself: dependencies go down in rank. */
  ghost predicate Ranked(T: Table, rank: Symbol -> nat) {
    forall s: Symbol, t: Symbol | t in Refs(T, s) :: rank(t) < rank(s)
  }

  ghost predicate AgreeOn(ss: seq<Symbol>, a: Assignment, b: Assignment) {
    forall t | t in ss :: a(t) == b(t)
  }

  lemma {:induction false} ValueAgrees(e: Expr, a: Assignment, b: Assignment)
    requires AgreeOn(ExprSymbols(e), a, b)
    ensures Value(e, a) == Value(e, b)
  {
    match e
    case Sym(s) => assert s in ExprSymbols(e);
    case Not(x) => ValueAgrees(x, a, b);
    case Comp(_, left, right) => assert left in ExprSymbols(e) && right in ExprSymbols(e);
    case Bin(_, l, r) =>
      ValueAgrees(l, a, b);
      ValueAgrees(r, a, b);
  }

  lemma OptAgrees(e: Option<Expr>, a: Assignment, b: Assignment)
    requires AgreeOn(OptSymbols(e), a, b)
    ensures ValueOrYes(e, a) == ValueOrYes(e, b)
  {
    if e.Some? {
      ValueAgrees(e.value, a, b);
    }
  }

  lemma {:induction false} PropsAgree(props: seq<Property>, a: Assignment, b: Assignment)
    requires AgreeOn(PropsSymbols(props), a, b)
    ensures PromptsValue(props, a) == PromptsValue(props, b)
    ensures FirstDefault(props, a) == FirstDefault(props, b)
    ensures FirstRange(props, a) == FirstRange(props, b)
  {
    if props != [] {
      if !props[0].Select? {
        OptAgrees(props[0].visible, a, b);
      }
      PropsAgree(props[1..], a, b);
    }
  }

  /** The property chosen is one of the properties, so its symbols are among theirs. */
  lemma {:induction false} FirstIsMember(props: seq<Property>, a: Assignment)
    ensures FirstDefault(props, a).Some? ==>
      FirstDefault(props, a).value in props && FirstDefault(props, a).value.Default?
    ensures FirstRange(props, a).Some? ==> FirstRange(props, a).value in props && FirstRange(props, a).value.Range?
  {
    if props != [] {
      FirstIsMember(props[1..], a);
    }
  }

  lemma {:induction false} MemberSymbols(props: seq<Property>, p: Property)
    requires p in props
    ensures forall t | t in PropSymbols(p) :: t in PropsSymbols(props)
  {
    if p != props[0] {
      MemberSymbols(props[1..], p);
    }
  }

  lemma DefaultAgrees(props: seq<Property>, a: Assignment, b: Assignment)
    requires AgreeOn(PropsSymbols(props), a, b)
    ensures DefaultTri(FirstDefault(props, a), a) == DefaultTri(FirstDefault(props, b), b)
    ensures DefaultText(FirstDefault(props, a), a) == DefaultText(FirstDefault(props, b), b)
  {
    PropsAgree(props, a, b);
    FirstIsMember(props, a);
    var def := FirstDefault(props, a);
    if def.Some? {
      MemberSymbols(props, def.value);
      assert forall t | t in OptSymbols(def.value.visible) :: t in PropSymbols(def.value);
      assert forall t | t in ExprSymbols(def.value.value) :: t in PropSymbols(def.value);
      OptAgrees(def.value.visible, a, b);
      ValueAgrees(def.value.value, a, b);
      if def.value.value.Sym? {
        assert def.value.value.s in ExprSymbols(def.value.value);
      }
    }
  }

  lemma RangeAgrees(T: Table, s: Symbol, text: string, props: seq<Property>, a: Assignment, b: Assignment)
    requires AgreeOn(PropsSymbols(props), a, b)
    ensures Clamp(T, s, text, FirstRange(props, a), a) == Clamp(T, s, text, FirstRange(props, b), b)
  {
    PropsAgree(props, a, b);
    FirstIsMember(props, a);
    var range := FirstRange(props, a);
    if range.Some? {
      MemberSymbols(props, range.value);
      assert range.value.low in PropSymbols(range.value) && range.value.high in PropSymbols(range.value);
    }
  }

  /** The equation looks at nothing but the symbols in `Refs`. */
  lemma EquationAgrees(T: Table, s: Symbol, a: Assignment, b: Assignment)
    requires AgreeOn(Refs(T, s), a, b)
    ensures Equation(T, s, a) == Equation(T, s, b)
  {
    if s.Named? {
      var d := T.defs(s);
      assert AgreeOn(OptSymbols(d.revDep), a, b) && AgreeOn(PropsSymbols(d.props), a, b);
      OptAgrees(d.revDep, a, b);
      PropsAgree(d.props, a, b);
      DefaultAgrees(d.props, a, b);
      assert VisibleValue(T, s, a) == VisibleValue(T, s, b);
      assert RevDepValue(T, s, a) == RevDepValue(T, s, b);
      var text := if VisibleValue(T, s, a) != NO && d.hasUser then d.userText
                  else DefaultText(FirstDefault(d.props, a), a);
      RangeAgrees(T, s, text, d.props, a, b);
    }
  }

  // ----- the solution -----

  /** The solution by recursion on the rank. */
  ghost function Spec(T: Table, rank: Symbol -> nat, s: Symbol): Entry
    decreases rank(s)
  {
    Equation(T, s, (t: Symbol) =>
      if rank(t) < rank(s) then Seen(t, Spec(T, rank, t)) else SymVal(NO, ""))
  }

  ghost function Solution(T: Table, rank: Symbol -> nat): Assignment {
    (s: Symbol) => Seen(s, Spec(T, rank, s))
  }

  lemma SpecIsEquation(T: Table, rank: Symbol -> nat, s: Symbol)
    requires Ranked(T, rank)
    ensures Spec(T, rank, s) == Equation(T, s, Solution(T, rank))
  {
    var below := (t: Symbol) => if rank(t) < rank(s) then Seen(t, Spec(T, rank, t)) else SymVal(NO, "");
    EquationAgrees(T, s, below, Solution(T, rank));
  }

  lemma SolutionSolves(T: Table, rank: Symbol -> nat)
    requires Ranked(T, rank)
    ensures Solves(T, Solution(T, rank))
  {
    forall s: Symbol
      ensures Solution(T, rank)(s) == Seen(s, Equation(T, s, Solution(T, rank)))
    {
      SpecIsEquation(T, rank, s);
    }
  }

  /** On a table without cycles the equations have one solution. */
  lemma {:induction false} SolutionIsUnique(T: Table, rank: Symbol -> nat, a: Assignment, s: Symbol)
    requires Ranked(T, rank) && Solves(T, a)
    ensures a(s) == Solution(T, rank)(s)
    decreases rank(s)
  {
    forall t | t in Refs(T, s)
      ensures a(t) == Solution(T, rank)(t)
    {
      SolutionIsUnique(T, rank, a, t);
    }
    EquationAgrees(T, s, a, Solution(T, rank));
    SpecIsEquation(T, rank, s);
  }

  /** Any solution is an assignment the expression simplifiers are sound for. */
  lemma SolutionsAreWellTyped(T: Table, a: Assignment)
    requires Solves(T, a)
    ensures WellTyped(a)
  {
    forall s: Symbol
      ensures HoldsAllowedValue(s, a(s))
    {
      assert a(s) == Seen(s, Equation(T, s, a));
    }
  }
}
