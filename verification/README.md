# Verified models of at91bootstrap and canquick

Dafny models of the parts of the repository where the logic is hardest to get right by reading, with
proofs of what those parts are for. `dafny verify dfyconfig.toml` checks everything.

## What is modelled

**Kconfig** (`at91bootstrap/config`).

- `KconfigExpr` holds the dependency expressions, their three-valued meaning (`n < m < y`, AND is the
  minimum, OR the maximum, NOT is 2 - x) and the operand lists ("spines") that the simplifiers walk.
  Properties hold for every *well-typed* assignment: boolean symbols are never `m`, the text of a boolean
  or tristate symbol spells its value, distinct constants have distinct texts.
- `KconfigCommon` is the mutually recursive pair of common-part elimination and equality test, and the
  extraction of a common part; `KconfigShapes` says which expressions these recognise as equal.
- `KconfigDups` is duplicate elimination: the join rules, the two passes over a spine, and the loop; `KconfigLeaves` says
  what its result is free of.
- `KconfigTransform` is the normal form, the boolean and the comparison rewriter.
- `KconfigMenuDeps` is what menu finalization does with all of these.
- `KconfigSymbols` states the equations that symbol values have to satisfy and that they have one solution;
  `KconfigMeaning` says in terms of prompts, selects, defaults and ranges what any solution is;
  `KconfigEvaluator` is the caching evaluator, proved against that solution; `KconfigSetting` is what
  setting a symbol does to the solution; `KconfigCheckDeps` is the
  search for dependency cycles; `KconfigChoice` is the evaluation of a boolean choice and its members.
- `MenuLinks`, `MenuBuilding` and `Menu` are the pointer tree of menu entries: how the parser builds it, how
  finalization re-nests it, and the walk over it that writes the configuration.
- `ConfString` is writing a string symbol to the configuration file and reading it back.

**Drivers** (`at91bootstrap/driver`). `OneWire` is the 1-Wire ROM search on a bus that is the set of devices
still taking part, `Crc8` the checksum of what it finds, and `CrcPolynomial` what that checksum is in terms of
polynomials; `Hamming` the error-correcting code of the NAND driver; `Cmac` the message authentication code over an
abstract block cipher; `Bytes` the bytes both work on.

**canquick.** `Alerts` is the network of signals, protocols, enablers and items on the display;
`DisplayTree` the counted tree of graphic items, `DisplayRuns` what holds over runs of requests to it, `DisplayLayers`
which items its layers show, and `DisplayScreen` the objects; `Packrat` the memoisation of the PEG parser,
`PackratMeaning` what the operators mean apart from any parser, `PackratEnds` when a parse comes to an end, and
`PackratStack` the reuse of frames for semantic values.

Functions of the source that compute a value from values are functions here. Objects whose fields are
updated, and loops that update variables, are classes and methods, proved against functions and lemmas.
Where the source has many objects that point to each other (symbols, menu entries, signals, nodes), one
class holds the fields of all of them, indexed by object.

## What turned out differently from what one might expect

- Duplicate elimination keeps `y` and `n` but can turn `m` into `n`: `(F || B) && !F && !B` becomes `n`
  (`KconfigDups.EliminateDupsCanLoseMod`). Which replacement is exact when is
  `KconfigDups.ContradictionReplacement`; every join rule is exact in three values.
- The equality test may depend on the order of operands: `l && r` may not be recognised as `r && l` if operands
  of these hold constants to fold (`KconfigShapes.SwappedCanGoUnrecognised`). Without such constants it recognises exactly
  what differs in order and grouping only (`KconfigShapes.ExprEqExactlyWhen`).
- The comment at at91bootstrap/config/expr.c:544 announces `'m'` for `(a!='m') && (a!='n')`; the code
  produces `a='y'`, which is right, and the model follows the code.
- The cycle search does not look into the bounds of ranges, although the evaluator does. After a clean search there is an
  order for the evaluator to go by exactly if no range bound leads back to the symbol it bounds
  (`KconfigCheckDeps.RankingExactlyWhen`), and then the values are determined. Two symbols that bound each other go unseen
  (`KconfigCheckDeps.RangeCycleGoesUnseen`), and their values are not (`KconfigCheckDeps.RangeCycleHasTwoSolutions`).
- Comparing a negation goes wrong where rounding `m` decides between equal and unequal
  (`KconfigTransform.TransCompareIsRightExactlyWhen`): always for a negated symbol at `m`, never for one negated twice.
- An entry may be nested under a symbol, though it can be there while the symbol is `n` and its prompt is not visible
  (`KconfigMenuDeps.NestingCanBeUnjustified`): the test reads `m` as `y`, also below a NOT.
- Setting a symbol to the value it already has is always accepted, but can lower it when it is evaluated again
  (`KconfigSetting.SettingDefaultCanLower`); any other accepted value takes effect.
- The enumeration of the 1-Wire bus stops at the first device with a bad checksum or a zero family byte, so
  it lists everything exactly if every device is acceptable (`OneWire.AllListedExactlyWhen`).
- The packrat cache needs no restriction on the grammar: failed attempts leave the semantic values alone, and
  an outcome, where there is one, does not depend on the recursion that was available.
- A node of the display may be shown whether it has children or not, unless it would be counted below a member of a mutex
  group, which clearing the group does not reach (`DisplayTree.ActivateKeepsSoundExactlyWhen`). The show itself still
  leaves every count covering its children (`DisplayRuns.ShowKeepsCover`); that breaks when another member takes over
  (`DisplayRuns.TakeoverUncoversBelow`). Hiding it is safe exactly if
  its count is more than its children account for (`DisplayTree.DeactivateKeepsSoundExactlyWhen`); since showing a node
  that is active already is skipped, hiding it afterwards may take away what its children count for
  (`DisplayRuns.SkippedShowIsHidden`). Mutex groups are exclusive whatever is asked for.
- Taking over from a member of a mutex group leaves the group's count too high, exactly if some member was active
  (`DisplayRuns.TakeoverKeepsExcessExactlyWhen`), and for good unless the group itself is hidden, whatever else is asked for
  (`DisplayRuns.ExcessIsForGood`). Layer -1 doubles as "none yet" in the visibility loop
  (`DisplayLayers.ToldRightExactlyWhen`).
- The first line written for a string symbol assigns it back exactly if it has no line end and its line fits the buffer of
  1024 characters, the line end not counted (`ConfString.RoundTripExactlyWhen`).

## Model

| member | source | states |
|---|---|---|
| KconfigExpr.EliminateYNKeepsValue | at91bootstrap/config/expr.c:247-327 | folding of `y` and `n` keeps the value in every assignment |
| KconfigExpr.EliminateYNShrinks | at91bootstrap/config/expr.c:247-327 | folding never adds leaves, and removes one whenever a constant operand is there to fold |
| KconfigCommon.EliminateEqSpine | at91bootstrap/config/expr.c:141-175 | the mutual recursion with the equality test terminates on the summed size; neither side grows or loses its operator |
| KconfigCommon.SpineHasCommonFactor | at91bootstrap/config/expr.c:141-175 | there is one factor c with old1 = c op new1 and old2 = c op new2 in every assignment |
| KconfigCommon.EliminateEqHasCommonFactors | at91bootstrap/config/expr.c:177-199 | the same for the whole eliminator, with one factor for each of its two passes |
| KconfigCommon.EliminateEqReflectsOrder | at91bootstrap/config/expr.c:177-199 | an order between what is left holds between the originals; a second argument reduced to `y` means first <= second |
| KconfigCommon.ExprEqIsSound | at91bootstrap/config/expr.c:203-245 | equality reported means equal value in every assignment |
| KconfigCommon.ExprEqIsReflexive | at91bootstrap/config/expr.c:203-245 | every expression is reported equal to itself, so copies are always found |
| KconfigCommon.SpineLeavesNothingShared | at91bootstrap/config/expr.c:141-175 | afterwards no operand of one side matches an operand of the other, constants aside, and only neutral constants have come in |
| KconfigCommon.CopyCancels | at91bootstrap/config/expr.c:141-175 | eliminating a spine against a copy of itself leaves nothing but constants on both sides |
| KconfigShapes.ExprEqExactlyWhen | at91bootstrap/config/expr.c:203-245 | two expressions without constants to fold are reported equal exactly if they are the same up to the order and grouping of operands, at every depth |
| KconfigShapes.SpinesAreEqualExactlyWhen | at91bootstrap/config/expr.c:203-245 | with constants among the operands of a spine: exactly if a constant decides both, or neither and they have the same operands in any order |
| KconfigShapes.ReorderedIsEqual | at91bootstrap/config/expr.c:203-245 | two spines whose operands are a permutation of each other, and hold nothing to fold inside, are reported equal |
| KconfigShapes.SwappedIsEqual | at91bootstrap/config/expr.c:203-245 | so the sides of such a tree may be swapped |
| KconfigShapes.SwappedCanGoUnrecognised | at91bootstrap/config/expr.c:141-175 | where operands hold constants to fold they may not: an expression that is not reported equal to its mirror image |
| KconfigShapes.NothingLeftExactlyWhen | at91bootstrap/config/expr.c:177-199 | the eliminator leaves `y` of its second argument exactly if that is `y`, or the first is an AND that has every operand of the second |
| KconfigShapes.AllExtractedExactlyWhen | at91bootstrap/config/expr.c:919-971 | extraction leaves nothing of the first argument exactly if the second has every operand of it |
| KconfigCommon.ExtractSpineHasCommonFactor | at91bootstrap/config/expr.c:943-971 | extraction conserves: what was taken out before, combined with an argument, is what is taken out now combined with the rest |
| KconfigCommon.ExtractIsCommonFactor | at91bootstrap/config/expr.c:919-941 | the part extracted is a common factor of both arguments |
| KconfigDups.JoinIsExact | at91bootstrap/config/expr.c:365-569 | every join rule for `\|\|` and `&&` has the value of the pair it replaces, in three values |
| KconfigDups.JoinRules | at91bootstrap/config/expr.c:365-569 | which pairs of tests of a symbol are joined, in either order, and to what |
| KconfigDups.Dups1TreeKeepsValue | at91bootstrap/config/expr.c:571-625 | the first pass is exact in three values |
| KconfigDups.ContradictionReplacement | at91bootstrap/config/expr.c:627-686 | the replacement of a contradicted operand keeps the value of the spine exactly if that was not `m` |
| KconfigDups.Dups2TreeSettles | at91bootstrap/config/expr.c:627-686 | the second pass keeps `y` and `n`; only `m` may turn into something else |
| KconfigDups.RoundShrinks | at91bootstrap/config/expr.c:688-712 | a round that counts a change leaves strictly fewer leaves after folding, so the loop terminates |
| KconfigDups.EliminateDupsSettles | at91bootstrap/config/expr.c:688-712 | the result equals the input wherever that is `y` or `n` |
| KconfigDups.EliminateDupsIsStable | at91bootstrap/config/expr.c:688-712 | a further round finds nothing to do |
| KconfigDups.EliminateDupsLeavesNoPair | at91bootstrap/config/expr.c:688-712 | in the result no two operands can be joined or are recognised as equal, in any spine and those nested in it |
| KconfigLeaves.EliminateDupsLeavesNoCopies | at91bootstrap/config/expr.c:688-712 | of an expression without constants to fold, no two operands of any spine of the result are the same up to order and grouping |
| KconfigDups.EliminateDupsLeavesNoContradiction | at91bootstrap/config/expr.c:627-686 | in the result no operand that is a tree is contradicted by any part of its spine |
| KconfigLeaves.ContradictsExactlyWhen | at91bootstrap/config/expr.c:627-686 | an operand counts as contradicted exactly if all operands of its negation are there beside it |
| KconfigDups.NoPairsMeansOneTest | at91bootstrap/config/expr.c:365-569 | in such a result a spine tests a tristate symbol for equality at most once under `\|\|`, and under `&&` an inequality test is the only test of its symbol |
| KconfigDups.EliminateDupsCanLoseMod | at91bootstrap/config/expr.c:650-660 | for two tristate symbols at `m` and `n`, `(F \|\| B) && (!F && !B)` is `m` and its simplification `n` |
| KconfigDups.Simplifier.ExprEliminateDups | at91bootstrap/config/expr.c:688-712 | the loop over the change counter computes the specified result and restores the counter |
| KconfigTransform.TransformKeepsValue | at91bootstrap/config/expr.c:714-865 | the normal form has the same value in every well-typed assignment |
| KconfigTransform.TransformIsNormal | at91bootstrap/config/expr.c:714-865 | NOT is left only over symbols other than the built-in `y`, `m` and `n` (a quoted constant may stay below it), and no boolean comparison with one of these is left |
| KconfigTransform.TransformIsIdempotent | at91bootstrap/config/expr.c:714-865 | a second transformation changes nothing |
| KconfigTransform.TransBoolAfterTransform | at91bootstrap/config/expr.c:334-360 | after the transformation the boolean rewriter keeps whether the value is `n` |
| KconfigTransform.TransBoolKeepsNo | at91bootstrap/config/expr.c:334-360 | for every expression the boolean rewriter keeps whether the value is `n`, if no symbol tested below a NOT is `m` |
| KconfigTransform.TransBoolBelowNotExactlyWhen | at91bootstrap/config/expr.c:334-360 | for a single test below a NOT that condition is exact |
| KconfigTransform.TransCompareRounds | at91bootstrap/config/expr.c:973-1036 | comparing with `y` or `n` gives `y` or `n`, by comparing a rounded value |
| KconfigTransform.TransCompareCompares | at91bootstrap/config/expr.c:973-1036 | `y` exactly when the comparison holds, provided negated parts are two-valued |
| KconfigTransform.TransCompareIsRightExactlyWhen | at91bootstrap/config/expr.c:973-1036 | for every expression the comparison is right exactly if rounding `m` throughout does not decide between equal and unequal |
| KconfigTransform.TransCompareOfNots | at91bootstrap/config/expr.c:1005-1007 | so a negated symbol is compared rightly exactly if it is not `m`, a symbol negated twice always |
| KconfigTransform.DependsMeansImplies | at91bootstrap/config/expr.c:890-917 | an expression that depends on a boolean or tristate symbol is `n` wherever the symbol is |
| KconfigTransform.UnmentionedSymbolIsIrrelevant | at91bootstrap/config/expr.c:867-888 | a symbol that is not contained has no influence on the value |
| KconfigMenuDeps.PropagatedDepIsConjunction | at91bootstrap/config/menu.c:280-284 | the dependency pushed into an entry is the conjunction of the menu's and its own, `m` aside |
| KconfigMenuDeps.PropagatedVisibilityIsConjunction | at91bootstrap/config/menu.c:285-297 | so is the visibility of its properties, up to `n` or not for boolean symbols |
| KconfigMenuDeps.NotNoIsExact | at91bootstrap/config/menu.c:312-314 | the rewritten condition says whether the condition, with every symbol at `m` read as `y`, is not `n` |
| KconfigMenuDeps.NotNoIsRightExactlyWhen | at91bootstrap/config/menu.c:312-314 | so it says whether the condition itself is not `n` exactly if reading it that way keeps whether it is |
| KconfigMenuDeps.NestingMeansRounded | at91bootstrap/config/menu.c:316-331 | an entry that nests under a boolean or tristate symbol: with `m` read as `y`, its dependency can only be met if the symbol is set or the visibility of its prompt is met |
| KconfigMenuDeps.NestingIsJustified | at91bootstrap/config/menu.c:316-331 | where negated parts of both conditions are two-valued, such an entry can only be there if the symbol or the visibility of its prompt is not `n` |
| KconfigMenuDeps.NestingCanBeUnjustified | at91bootstrap/config/menu.c:316-331 | otherwise it may be there without either: S with a prompt `if T=n`, and an entry that depends on `!T && !S`, with T at `m` and S at `n` |
| KconfigMenuDeps.NestsWhenever | at91bootstrap/config/menu.c:316-320 | a condition nests as soon as one of its conjuncts tests that the symbol is set, never if it does not mention the symbol, and under a prompt without a condition exactly if it does |
| KconfigMenuDeps.NestsUnderExactlyWhen | at91bootstrap/config/menu.c:316-331 | and, with nothing left to fold in the two rewritten conditions, otherwise exactly if that of the prompt is `y` or all its conjuncts are among those of the entry |
| KconfigSymbols.SolutionSolves | at91bootstrap/config/symbol.c:289-419 | without cycles the equations for visibility, select, user value, default and range have a solution |
| KconfigSymbols.SolutionIsUnique | at91bootstrap/config/symbol.c:289-419 | and only one |
| KconfigSymbols.SolutionsAreWellTyped | at91bootstrap/config/symbol.c:289-419 | every solution is an assignment for which the simplifiers are sound |
| KconfigSymbols.RangeIsRespected | at91bootstrap/config/symbol.c:157-190 | the number stored is the one in the range that is closest to the number given, if the bounds read back as they are written |
| KconfigMeaning.FirstExactlyWhen | at91bootstrap/config/symbol.c:117-138 | the default, or range, that counts is the first one whose condition is not `n`; there is none exactly if no condition is other than `n` |
| KconfigMeaning.VisibleExactlyWhen | at91bootstrap/config/symbol.c:192-206 | a symbol is as visible as its most visible prompt, where only a tristate symbol stays at `m` |
| KconfigMeaning.LogicalValueExactlyWhen | at91bootstrap/config/symbol.c:334-365 | in any solution a boolean or tristate symbol reaches a value exactly if what selects it does, or the user's value and a prompt both do, or, where the user has no say, the first default that applies does |
| KconfigMeaning.TextValueIs | at91bootstrap/config/symbol.c:366-394 | in any solution a text or number symbol is the user's text if it can be seen, else what the first default that applies hands on; a number outside the first range that applies becomes the bound it misses |
| KconfigMeaning.WrittenExactlyWhen | at91bootstrap/config/symbol.c:337-384 | a symbol goes into the configuration exactly if it can be seen, is selected, or has a default that applies |
| KconfigEvaluator.SymbolTable.CalcExpr | at91bootstrap/config/expr.c:1038-1078 | evaluating an expression gives its value in the solution, and all VALID symbols still hold theirs |
| KconfigEvaluator.SymbolTable.CalcVisibility | at91bootstrap/config/symbol.c:192-223 | visibility and reverse dependency are those of the solution |
| KconfigEvaluator.SymbolTable.ValidateRange | at91bootstrap/config/symbol.c:157-190 | a number is moved to the bound it violates, as the equation says |
| KconfigEvaluator.SymbolTable.CalcValue | at91bootstrap/config/symbol.c:289-419 | whatever is valid already, the symbol becomes valid with its value in the solution, through all nested calls |
| KconfigEvaluator.SymbolTable.CalcAll | at91bootstrap/config/symbol.c:289-419 | so in any order of evaluation all symbols get the same values |
| KconfigSetting.UnrelatedSymbolsStay | at91bootstrap/config/symbol.c:474-510 | setting a symbol leaves every symbol as it was whose value does not lead to it |
| KconfigSetting.NeverBelowSelected | at91bootstrap/config/symbol.c:361 | whatever the user sets a symbol to, once evaluated again it is not below what selected it before |
| KconfigSetting.SetTakesEffectExactlyWhen | at91bootstrap/config/symbol.c:455-510 | once evaluated again, a symbol has the value that was accepted, exactly unless it already had it by a default above its visibility and above what selects it |
| KconfigSetting.NewValueTakesEffect | at91bootstrap/config/symbol.c:455-510 | a new value that was accepted always takes effect |
| KconfigSetting.NewValueAcceptedExactlyWhen | at91bootstrap/config/symbol.c:455-480 | a new value is accepted exactly if it is `n` or `y` of a boolean that can be seen and that nothing selects, or lies between what selects a tristate symbol and what its prompts show, where these show more |
| KconfigSetting.SettingDefaultCanLower | at91bootstrap/config/symbol.c:474-510 | a symbol at `y` by default with a prompt at `m`: setting it to `y` is accepted and leaves `m` |
| KconfigCheckDeps.Checker.CheckDeps | at91bootstrap/config/symbol.c:1000-1039 | a symbol returned is on the way down and reached by a path; otherwise everything from here has been followed |
| KconfigCheckDeps.Checker.CheckAll | at91bootstrap/config/zconf.y:498-501 | started from every symbol, an error is counted if and only if there is a cycle |
| KconfigCheckDeps.FinishedMeansNoCycle | at91bootstrap/config/symbol.c:907-962 | the finishing order of a clean search rules out every cycle |
| KconfigCheckDeps.FinishedRanks | at91bootstrap/config/symbol.c:907-962 | unless a range bound leads back to the symbol it bounds, a clean search means that symbols can be ranked by how many they may ask for, which is what the evaluator needs |
| KconfigCheckDeps.RankedMeansNoCycle | at91bootstrap/config/symbol.c:907-962 | where there is a ranking there is no cycle to find, and no range bound leads back |
| KconfigCheckDeps.RankingExactlyWhen | at91bootstrap/config/symbol.c:907-962 | after a clean search of a finite table, a ranking exists exactly if no range bound leads back to the symbol it bounds |
| KconfigCheckDeps.CleanSearchHasOneSolution | at91bootstrap/config/symbol.c:907-962 | then the values are determined and well typed |
| KconfigCheckDeps.RangeCycleGoesUnseen | at91bootstrap/config/symbol.c:946-960 | two symbols that bound each other's range: nothing is found, and no ranking exists |
| KconfigCheckDeps.RangeCycleHasTwoSolutions | at91bootstrap/config/symbol.c:157-190 | and their values are not determined: the equations have two solutions that differ at both symbols |
| KconfigChoice.ExactlyOneMember | at91bootstrap/config/symbol.c:334-336 | at most one member is on, and one is exactly if the choice is on by its own conditions and some member is visible |
| KconfigChoice.InsideIsOffWithout | at91bootstrap/config/menu.c:265-297 | what a choice, and the blocks and menus inside it, pass down to their entries is `n` whenever the choice is |
| KconfigChoice.PromptsAreGated | at91bootstrap/config/menu.c:265-297 | so as menu finalization leaves them, prompts anywhere inside a choice look at the choice or never show |
| KconfigChoice.PickedIsOffered | at91bootstrap/config/symbol.c:231-287 | the user's pick, the defaults and the members in order yield a visible member exactly if there is one |
| KconfigChoice.PickedIs | at91bootstrap/config/symbol.c:264-287 | the user's pick wins if it can be seen; else the first default with a condition other than `n` and a visible member; else the first visible member |
| KconfigChoice.OfferedExactlyWhen | at91bootstrap/config/symbol.c:192-206 | a member can be picked exactly if one of its prompts can be seen with the choice on |
| KconfigChoice.OwnValueExactlyWhen | at91bootstrap/config/symbol.c:334-365 | by its own conditions a choice is on exactly if it is selected, or set by the user and visible |
| KconfigChoice.ChoiceGroup.CalcChoiceValue | at91bootstrap/config/symbol.c:391-393 | the choice gets its specified value and pick, and loses its value if no member is visible |
| KconfigChoice.ChoiceGroup.ChoiceDefaultSymbol | at91bootstrap/config/symbol.c:231-262 | the first visible default, else the first visible member |
| KconfigChoice.ChoiceGroup.CalcMember | at91bootstrap/config/symbol.c:334-336 | a member gets its specified value, whether or not the choice has been evaluated |
| KconfigChoice.ChoiceGroup.Evaluate | at91bootstrap/config/symbol.c:289-419 | in any order of evaluation, choice and members get the same values |
| MenuLinks.Split | at91bootstrap/config/expr.h:161-173 | the list and next pointers of a well-linked list divide it into what its first entry holds and the rest |
| MenuLinks.HandedOver | at91bootstrap/config/menu.c:383-392 | after the splice the entry and those it held form one well-linked list |
| MenuLinks.Gathered | at91bootstrap/config/menu.c:337-341 | after the relinking the entries taken over are the list of the entry before them |
| MenuLinks.Climb | at91bootstrap/config/confdata.c:541-550 | climbing from the last entry of a menu leads to the entry that follows it in file order, or to the end |
| MenuBuilding.HookedIsBuilding | at91bootstrap/config/menu.c:51-65 | hooking in one more entry keeps the tree well linked, with all open menus reaching to the end |
| MenuBuilding.MenuBuilder.AddEntry | at91bootstrap/config/menu.c:51-65 | a new entry is added to the current menu and everything stays well linked |
| MenuBuilding.MenuBuilder.EndMenu | at91bootstrap/config/menu.c:78-82 | the parent of the current menu becomes current and is open |
| Menu.MenuTree.constructor | at91bootstrap/config/zconf.y:488-497 | what the parser has built is well linked |
| Menu.InheritedIsConjunction | at91bootstrap/config/menu.c:280-297 | the conditions stored with an entry say whether the menu around it, the entry and its prompt allow it, wherever these are definite |
| Menu.NestsByItsCondition | at91bootstrap/config/menu.c:316-320 | an entry is judged by the condition of its prompt, or without one by its dependency: it nests if a conjunct tests that the symbol is set, and not if the symbol is not mentioned |
| Menu.NestedIsJustified | at91bootstrap/config/menu.c:316-331 | an entry that nests is not there while the symbol is off and its prompt hidden, where negated parts are two-valued |
| Menu.MenuTree.PassDown | at91bootstrap/config/menu.c:273-308 | the entries on the list of a menu, and no others, take in its condition |
| Menu.MenuTree.Gather | at91bootstrap/config/menu.c:311-342 | an entry takes over exactly the following entries up to the first that does not nest, and each of these nests |
| Menu.MenuTree.Flatten | at91bootstrap/config/menu.c:343-393 | exactly the entries without a title lose what they held to the menu around them |
| Menu.MenuTree.Finalize | at91bootstrap/config/menu.c:241-408 | the preorder is unchanged, every parent pointer names the entry whose list holds it, nothing outside changes, and an entry without a list stops taking over entries only at one that does not nest |
| Menu.MenuTree.FinalizeRoot | at91bootstrap/config/zconf.y:497 | the whole tree stays well linked, and below the root only entries with a title hold anything |
| Menu.MenuTree.Walk | at91bootstrap/config/confdata.c:497-551 | the walk halts and visits every entry once, in the order of the files |
| Menu.MenuTree.NextEntry | at91bootstrap/config/confdata.c:653-667 | down, on or up, the step leads to the next entry in file order |
| ConfString.UnescapeUndoesEscape | at91bootstrap/config/confdata.c:129-142 | unescaping an escaped string gives it back, whatever follows the closing quote |
| ConfString.CutHasNoEnd | at91bootstrap/config/confdata.c:132-142 | no beginning of an escaped string is taken for a whole one |
| ConfString.RoundTripExactlyWhen | at91bootstrap/config/confdata.c:224-268 | the first line written assigns the string back exactly if it has no line end and the line fits |
| ConfString.WriteString | at91bootstrap/config/confdata.c:423-443 | the loop writes the specified line |
| ConfString.Unescape | at91bootstrap/config/confdata.c:132-142 | the unescape in place leaves the value in the buffer, or reports that there is no closing quote |
| OneWire.ForcedIsFirst | at91bootstrap/driver/ds24xx.c:208-292 | a walk that takes 1 only where it must ends at the least device in LSB-first order |
| OneWire.BranchIsNext | at91bootstrap/driver/ds24xx.c:208-292 | following the last path to its last zero branch and turning there leads to the successor |
| OneWire.WalkStep | at91bootstrap/driver/ds24xx.c:210-292 | one bit of the walk keeps all it has to keep |
| OneWire.WalkEnds | at91bootstrap/driver/ds24xx.c:180-316 | after 64 bits one device is left: the first, or the one after the last found; without a zero branch it is the last |
| OneWire.Searcher.SearchRom | at91bootstrap/driver/ds24xx.c:180-316 | a call moves on to the successor, succeeds exactly on an acceptable device, and resets the state otherwise |
| OneWire.Searcher.FindNext | at91bootstrap/driver/ds24xx.c:328-332 | from a device the search goes on to the next in order, or ends |
| OneWire.Searcher.EnumerateAllRom | at91bootstrap/driver/ds24xx.c:355-378 | the enumeration stops, and lists in ascending order, each once, the devices up to the first that is not acceptable; their number is returned |
| OneWire.AllListedExactlyWhen | at91bootstrap/driver/ds24xx.c:355-378 | every device is listed exactly if every device is acceptable |
| OneWire.AcceptableExactlyWhen | at91bootstrap/driver/ds24xx.c:294-312 | a device is accepted exactly if its last byte is the checksum of the others and the family byte is not 0; in other words, if its bits in wire order are a multiple of the polynomial |
| Crc8.EntryIsRemainder | at91bootstrap/driver/ds24xx.c:84-101 | each entry of the table is the remainder of its index modulo x^8 + x^5 + x^4 + 1, lowest bit first |
| CrcPolynomial.CrcIsRemainder | at91bootstrap/driver/ds24xx.c:84-106 | the checksum is the one byte that makes message and checksum a multiple of x^8 + x^5 + x^4 + 1 |
| CrcPolynomial.ZeroExactlyWhenMultiple | at91bootstrap/driver/ds24xx.c:103-106 | a message has checksum 0 exactly if it ends with the checksum of what comes before, and exactly if it is such a multiple itself |
| Crc8.OneByteIsDetected | at91bootstrap/driver/ds24xx.c:103-106 | two messages that differ in one byte have different checksums |
| OneWire.DamagedRomIsRejected | at91bootstrap/driver/ds24xx.c:294-316 | an acceptable device is not accepted if one of its bytes is read wrongly |
| Hamming.ComputeEcc256 | at91bootstrap/driver/hamming.c:67-95 | the loop computes the code by its definition over lines and columns |
| Hamming.CodeIsParities | at91bootstrap/driver/hamming.c:67-95 | each bit of the code says that an even number of bits are set in one half of the data: the bytes, or columns, whose number has a given bit set, or clear; the two bits left over are set |
| Hamming.FlipInEcc | at91bootstrap/driver/hamming.c:67-95 | flipping a data bit changes the code by a pattern that depends on its position only |
| Hamming.SyndromeDecodes | at91bootstrap/driver/hamming.c:102-122 | the pattern decodes to exactly that position |
| Hamming.SyndromeHasElevenBits | at91bootstrap/driver/hamming.c:140-147 | and has eleven bits |
| Hamming.CleanSlabPasses | at91bootstrap/driver/hamming.c:129-157 | undamaged data with its own code passes |
| Hamming.SingleFlip | at91bootstrap/driver/hamming.c:129-157 | any single flip in data is undone; any single flip in the code is reported and the data untouched |
| Hamming.DoubleFlip | at91bootstrap/driver/hamming.c:129-157 | any two flips across data and code are reported as such and the data untouched |
| Hamming.Verify256 | at91bootstrap/driver/hamming.c:129-157 | the check in place gives the specified verdict and changes nothing outside the slab |
| Hamming.HammingVerify256x | at91bootstrap/driver/hamming.c:168-188 | the loop over a page gives the specified verdict and data, stopping at the first slab beyond repair |
| Hamming.PageIsRestored | at91bootstrap/driver/hamming.c:168-188 | a page with clean codes and at most one data flip in each slab is restored, and the result says whether there was one |
| Cmac.FirstSubkeyIsDoubling | at91bootstrap/driver/at91_aes.c:446-457 | the first subkey of SP 800-38B section 6.1 is the block times x in GF(2^128) |
| Cmac.MakeSubkey | at91bootstrap/driver/at91_aes.c:446-457 | the carry loop turns the buffer into the first subkey |
| Cmac.Length2BlocksHolds | at91bootstrap/driver/at91_aes.c:314-347 | the number of blocks is the least that holds the data |
| Cmac.ChainJoins | at91bootstrap/driver/at91_aes.c:460-475 | the chain may be computed in two parts |
| Cmac.AesCmac | at91bootstrap/driver/at91_aes.c:413-485 | for data of complete blocks and any cipher the result is the tag of SP 800-38B section 6.2; an empty message or a refused key is reported and changes nothing |
| Cmac.CmacIsUnique | at91bootstrap/driver/at91_aes.c:413-485 | that tag is determined by cipher and message |
| Cmac.CmacOfOneBlock | at91bootstrap/driver/at91_aes.c:460-485 | the tag of one block is that block, masked with the subkey and encrypted |
| Cmac.CmacAbsorbs | at91bootstrap/driver/at91_aes.c:460-485 | the tag of a longer message is that of the message whose first block has been encrypted and added to the second |
| Alerts.WithoutOne | canquick/amjsongraphicitemaction.cpp:88-97 | taking a sender off a list without repetitions takes off that sender and no other |
| Alerts.Network.ProcessItem | canquick/amjsongraphicitemaction.cpp:74-98 | the sender is listed or taken off, and the display still shows exactly what it should |
| Alerts.Network.ForceDeactivation | canquick/amjsongraphicitemaction.cpp:150-165 | all activators are gone, the arguments forgotten, and the display right |
| Alerts.Network.ArgumentComplete | canquick/amjsongraphicitemaction.cpp:167-222 | the argument is stored and, if the item is active, shown |
| Alerts.Network.EnableDisableSignal | canquick/amjsonsignal.cpp:503-529 | the disabler is listed once or taken off; a signal that becomes disabled activates nothing |
| Alerts.Network.DeactivateAll | canquick/amjsonsignal.cpp:553-583 | the signal is in no item's list afterwards |
| Alerts.Network.ProcessShow | canquick/amjsonfixedargumentsactioninvoker.cpp:31-57 | switched on with an argument fixed in the table, the item takes that argument over; without one, or switched off, the arguments stay; no other item changes |
| Alerts.Network.Emit | canquick/amjsonenableraction.cpp:37-40 | switching off reaches every connected target, enables nothing and activates nothing, and takes down nothing but what is connected to this enabler or to one of a protocol disabled on the way; switching on takes this enabler's hold off every target and leaves the hold of others |
| Alerts.Network.DisableProtocol | canquick/amjsonprotocol.cpp:155-199 | the cascade terminates; the protocol's enablers have switched off all they are connected to, none of its signals activates anything, and nothing else has gone off |
| Alerts.Network.Process | canquick/amjsonsignal.cpp:364-417 | a disabled signal changes nothing; an enabled one activates exactly the item its value stands for, which takes over and shows an argument that comes with it, while all other arguments and all other signals stay; or it switches on or off what its value stands for |
| Alerts.Network.constructor | canquick/amjsonenableraction.cpp:13-34 | at the start everything an enabler is connected to is off |
| Alerts.Network.Run | canquick/amjsonsignal.cpp:364-417 | over any run, activators are enabled signals of enabled protocols, and an item is shown exactly if it has activators and the arguments it needs |
| DisplayScreen.Display.AppendChild | canquick/rootedtreenode.cpp:33-52 | the children stay sorted by layer, the new one before those of the same layer |
| DisplayTree.ActivateKeepsSoundExactlyWhen | canquick/rootedtreenode.cpp:229-285 | showing any node, with children or not, keeps every count at least the sum of its children's, mode groups aside, with at most one active member to a mutex group and no count below a member; exactly unless it is, or counts for, a child of a member |
| DisplayTree.DeactivateKeepsSoundExactlyWhen | canquick/rootedtreenode.cpp:288-310 | hiding an active node keeps all that exactly if it is a mode group or its count is more than the sum of its children's |
| DisplayTree.ActivateCounts | canquick/rootedtreenode.cpp:224-285 | in any tree and state: one more for the node and all it counts for, and nothing is left in the mutex groups on the way |
| DisplayTree.DeactivateCounts | canquick/rootedtreenode.cpp:288-310 | where the node and all it counts for are active: one less for each of these, and nothing else changes |
| DisplayTree.AncestorsAreActive | canquick/rootedtreenode.cpp:265-310 | everything above an active node is active up to the nearest mode group |
| DisplayRuns.MutexGroupsAreExclusive | canquick/rootedtreenode.cpp:229-250 | in any tree and over any run of requests, no mutex group gets two active members |
| DisplayRuns.HandleKeepsSoundExactlyWhen | canquick/mainprocess.cpp:260-288 | a request, guarded as it is there, keeps the counts sound exactly if it may be handled: not a show of what would count below a member, not a hide of a node whose count is all due to its children |
| DisplayRuns.RunKeepsSoundExactlyWhen | canquick/mainprocess.cpp:241-343 | the counts are sound all through a run exactly if each of its requests may be handled when it comes |
| DisplayRuns.SkippedShowIsHidden | canquick/mainprocess.cpp:264-338 | showing a node that its children keep active is skipped, so hiding it then leaves it short of its children |
| DisplayRuns.ShowKeepsCover | canquick/rootedtreenode.cpp:265-285 | from a sound state, showing any node at all, even below a member, leaves every count at least the sum of its children's, mode groups aside |
| DisplayRuns.TakeoverUncoversBelow | canquick/rootedtreenode.cpp:229-285 | what is active below a member is no longer covered once another member takes over |
| DisplayRuns.ExcessIsAtLeastOwnRequests | canquick/mainprocess.cpp:241-343 | over any run and from any state, what a node's count has beyond its children's falls by its own requests only; mode groups and members of mutex groups aside |
| DisplayRuns.ExcessIsOwnRequests | canquick/mainprocess.cpp:241-343 | outside mutex groups it changes by just its own requests, if it is not negative at the start and whenever the node itself is hidden it has something of its own; whatever else is asked for |
| DisplayRuns.UncoveredHideIsForgotten | canquick/mainprocess.cpp:241-343 | without that it need not: hiding a node that only its one child keeps active, then the child |
| DisplayRuns.GroupsAreExact | canquick/rootedtreenode.cpp:265-310 | over any run and from any state, a node that is never asked for itself keeps exactly the sum of its children's counts; mutex groups, their members and mode groups aside |
| DisplayRuns.TakeoverKeepsExcessExactlyWhen | canquick/rootedtreenode.cpp:229-285 | in any state, showing a member of a mutex group that is not itself a member adds all that its members were counted for to what the group has beyond them; so that stays as it was exactly if no member was active |
| DisplayRuns.ExcessIsForGood | canquick/mainprocess.cpp:241-343 | over any run that does not hide it and from any state, what a mutex group that is not itself a member has beyond its members' counts never falls; once it has something, it stays active |
| DisplayRuns.MutexGroupStaysActive | canquick/rootedtreenode.cpp:229-310 | showing two members in turn and hiding the second leaves all members inactive and the group with one more than before |
| DisplayScreen.Display.Activate | canquick/rootedtreenode.cpp:265-285 | the recursion and the loop over the mutex group compute the specified counts |
| DisplayScreen.Display.Deactivate | canquick/rootedtreenode.cpp:288-310 | the recursion computes the specified counts |
| DisplayScreen.Display.Run | canquick/mainprocess.cpp:241-343 | every request of a run is handled, none is left out; mutex groups stay exclusive, and the counts sound if each request may be handled when it comes |
| DisplayLayers.ToldOnce | canquick/rootedtreenode.cpp:313-380 | an update from a node tells each node under it exactly once, and no other |
| DisplayLayers.ToldRightExactlyWhen | canquick/rootedtreenode.cpp:313-380 | every node is told to show exactly if it is visible, if and only if no visible node has an active child of layer -1 that should keep back another |
| DisplayLayers.ToldRightForLayers | canquick/rootedtreenode.cpp:313-380 | with layers from 0 up: one message to each node, and show exactly if it and all above it are active and have the least layer among their active siblings |
| DisplayScreen.Display.UpdateVisibility | canquick/rootedtreenode.cpp:313-380 | the loops send the specified messages |
| Packrat.OneOutcome | canquick/peglib.h:948-1225 | an operator has at most one outcome, however much recursion is allowed |
| Packrat.FailureKeepsValues | canquick/peglib.h:1033-1169 | a failed attempt leaves the semantic values as they were |
| Packrat.SlotIsInjective | canquick/peglib.h:830-831 | different positions and rules have different cache slots |
| Packrat.RegisterKeepsRight | canquick/peglib.h:842-851 | writing a right outcome keeps the cache right |
| Packrat.Context.PackratRule | canquick/peglib.h:823-852 | a rule looked up or parsed and registered has the outcome of the plain parser, and the cache stays right |
| Packrat.Context.Run | canquick/peglib.h:948-1225 | every operator gives the outcome of the plain parser, or none with the recursion allowed just as the plain parser has none |
| Packrat.Context.ParseStart | canquick/peglib.h:2209-2285 | parsing with the cache gives the same length and value as parsing without it |
| PackratMeaning.GivesWhatIsDerived | canquick/peglib.h:924-1230 | an operator has an outcome exactly if it has a derivation: choice by the first alternative that matches, repetition up to the first failure, `&x` where x matches and `!x` where it fails, without consuming |
| PackratMeaning.RuleGivesWhatIsDerived | canquick/peglib.h:2209-2285 | so does a rule, whose value is what its action makes of the values below, or the first of them |
| PackratMeaning.PhraseMatchesExactlyWhen | canquick/candbgrammar.peg:49 | the expression for a quoted phrase matches from a quote to the next quote and nothing else |
| PackratStack.StackParser.Push | canquick/peglib.h:854-867 | the frame handed out is empty and none that is in use, and those are as they were |
| PackratStack.StackParser.Run | canquick/peglib.h:924-1230 | on frames that are used again every operator leaves in its frame what the parser with fresh values computes, and no other frame in use is touched |
| PackratStack.StackParser.RunSequence | canquick/peglib.h:948-969 | so does a sequence, though the frame it pushes is never popped |
| PackratStack.StackParser.RunReference | canquick/peglib.h:2209-2285 | so does a rule, which pops its frame before its value is passed on |
| PackratEnds.Ends | canquick/peglib.h:948-1225 | without left recursion and with repetition bodies that consume, some recursion is enough for every operator at every position |
| PackratEnds.ParseEnds | canquick/peglib.h:2209-2285 | so every parse with such a grammar has an outcome |
| PackratEnds.EmptyMatch | canquick/peglib.h:948-1225 | an operator that matches nothing is one that the analysis of the grammar says may |
| PackratEnds.EmptyBodyLoops | canquick/peglib.h:1033-1090 | a repetition of what matches nothing has no outcome with any amount of recursion, unless at the end of the input |
| PackratEnds.LeftRecursionLoops | canquick/peglib.h:948-975 | nor has a rule that begins with itself |
| PackratEnds.RecursionBehindDescends | canquick/peglib.h:948-975 | but a rule may refer to itself behind something that consumes |

## Left out

- Object lifetime: expressions, symbols and menu entries are values or indices; freeing, sharing by pointer and
  rewriting in place through `struct expr **` are not modelled. The passes of duplicate elimination, which look at two places of
  one tree, work on its operand list and positions in it.
- E_LIST and E_RANGE expressions, and comparing with `m` in the comparison rewriter.
- `modules_sym` changing while symbols are evaluated, SYMBOL_CHANGED, and help text, warnings and printing; `strtol` and
  `sprintf` are parameters of the evaluator.
- Choices in the symbol evaluator and in the cycle search: a choice is modelled by itself in `KconfigChoice`, where all symbols
  outside it hold fixed values.
- KconfigChoice.ChoiceGroup.CalcMember: does not model defaults of members, or conditions of members that mention other members.
- Menu finalization: choosing the type of a choice and of its members, the extra dependency of members of a tristate choice, and the
  reverse dependencies from `select` (at91bootstrap/config/menu.c:298-306, 344-382, 395-415); these change no links and come too late for nesting decisions.
- Menu.MenuTree.Walk: does not model what is written for an entry, which does not influence the walk.
- ConfString.RoundTripExactlyWhen: is about one string symbol and its line; other types of symbol and the rest of the file are not read.
- 1-Wire: timing, the pin, reading the memory of a device; `buf` is its first eight bytes.
- OneWire.Searcher.EnumerateAllRom: at most MAX_ITEMS devices are listed, since the table has room for no more and the source
  does not check; the bus may hold others after one that is not acceptable.
- Hamming.HammingVerify256x: the size has to be a multiple of 256, since the source counts an unsigned size down in steps of 256.
- Cmac.AesCmac: the length has to be a multiple of 16; the source pads no message. The engine is a function from blocks to blocks that may refuse the key.
- Alerts: how a value is read from a frame and compared with a signal's set or domain (the outcome is an input), supplementary
  values shown with an item, string and integer accumulators, locking. Signals between objects are synchronous calls.
- DisplayTree: QML and the arguments sent with a message. In `Alerts` the display shows what was last asked for, so that mutex groups do not
  hide other items there.
- Packrat: captures, macros, tokens, whitespace and word rules, back references, predicates on the AST, error positions and tracing. Positions are
  character indices. The value stack is modelled without the cache, which only leaves out calls. A parse that would not end is one that has no outcome with any amount of recursion.
- gconf, qconf, mconf, the DBC grammar (but for its rule for phrases, without the token around it), the JSON reader, sockets, brightness, the watchdog and the hardware drivers.
