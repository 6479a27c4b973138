# Verified model of the configuration engine and of two transmit protocols

This project models the hardest logic of the repository in Dafny and proves properties of it.

* **Dependency expressions** (`Expressions`, `Elimination`, `Transformation`, `Joining`, `Duplicates`,
  `DuplicateMeaning`, `InPlace`, `InPlacePair`, `Comparing`, `Matching`, `Contradictions`): the three-valued logic `n < m < y` with minimum, maximum and `2 - x`,
  and the rewriter over it: constant elimination, De Morgan normal form, the equality test and the eliminator that
  call each other, common-factor extraction, removal of duplicates and contradictions to a fixed point, comparison
  with a target value. `InPlace` is the duplicate eliminator as the original runs it, on two slots of one tree that
  is overwritten during the walk, with the global rewrite counter; it is proved equal to the functions of `Duplicates`.
  `InPlacePair` does the same for the eliminator and the factor extraction on two slots of two trees. `Matching` says
  what the equality test decides, and `Contradictions` what the contradiction test and the whole elimination do, by the
  operands that occur in a chain.
* **Menus** (`MenuDependencies`, `AdoptionTest`, `MenuForest`, `MenuTree`, `MenuCollect`, `MenuFinalize`, `MenuWalk`, `MenuOwners`,
  `MenuRelays`): which siblings an entry takes, by the conjuncts of their conditions, the restructuring of the menu tree on its next, list and parent pointers, the conditions handed down
  to all properties, what select properties and entries collect for the symbols, who owns an entry in the end, and the
  stackless walk of the configuration writers over the result.
* **Symbols** (`SymbolGraph`, `DependencyCheck`, `Numbers`, `Evaluation`, `EvaluationMeaning`, `Evaluator`, `MenuGraph`,
  `RangeEnds`, `VisibilityRewrite`, `SelectRewrite`, `SolutionLaws`): the search for recursive dependencies, the equations that the values
  of symbols satisfy, texts and the ranges of numbers included, the evaluation on demand behind valid flags that computes
  them, and the graph that the finished menus leave for both. `SolutionLaws` says what a solution is in terms of the
  entries: demands of selects, prompts, first defaults and ranges in the order of the text.
* **Text** (`Printing`, `Grammar`, `ConfigText`, `ConfigLaws`, `ConfigBuffer`, `ConfigReader`, `SaveAndLoad`): printing and parsing of expressions, the grammar that the
  parser accepts with its meaning,
  the lines of a configuration file, with the escape buffer and the line buffer worked on in place, and the whole way
  from a solution through the file and back.
* **Drivers** (`Runs`, `SdioCredit`, `SdioSender`, `UsbRing`, `UsbProtocol`, `UsbTransmit`): the transmit credit on SDIO against
  a 32-bit counter of the device, and the ring of transmit chunks on USB with a step for each section under its lock,
  so that completions come in while a transfer is being filled.

Where a property that one would expect does not hold of the code, the code is kept and the exact condition is proved:

* `expr_eliminate_dups` rewrites `x && !x` to `n` and `x || !x` to `y` when x is itself an AND or OR, although they are
  `m` for `x = m`. The witness is `(s || !s) && (!s && s)`; bare symbols are left alone. It keeps every definite value,
  and keeps all values of all expressions exactly in environments without `m` (`EliminateDupsNeedsModFree`).
* After its recursion into the second slot, `expr_eliminate_dups2` goes on and compares with that slot as a whole,
  because the recursive calls for the second operand do not return as those for the first one do.
* `expr_trans_compare` through a NOT is exact exactly without `m`, and only for symbols with a logical type
  (`TransCompareNeedsModFree`, `TransCompareNeedsTypes`). The menu code's test inherits the first condition
  (`AdoptionNeedsModFree`), and its direct-dependency branch needs a logical symbol (`DependsNeedsLogical`).
* The equality test of expressions is equality up to order and grouping, and so an equivalence, if no operand is y or n
  (`ExprEqExactly`). With such operands it is not transitive (`NotTransitive`).
* The search for recursive dependencies reports a loop exactly if there is one, but without choice groups every
  top-level call still returns "no loop", so the error count of the parser stays zero (`Checker.CheckAll`).
* That search does not follow the ends of ranges, which are evaluated. Menus that pass it have one value per symbol, for
  every order of evaluations, if ranges end at constants; as soon as one may end at a symbol with a type, there are
  menus that pass and go round in a circle (`EndsNeedFixed`). `TwoSolutions` is an int with the default 1 that has to
  lie between b and b, where b has that int as its default: both can be 1, and both can be 0.
* The menu code rewrites `X != n` to `X` in the conditions of entries that are not tristate. Their own visibility,
  defaults and texts do not notice, but the conditions of their select properties enter the bounds of the targets. With
  X = m and A = y, `select T if X != n` in the boolean A makes T at least m instead of y (`SolutionChanges`). The solutions
  are the same with and without the rewriting exactly if there are no modules or no boolean selects a tristate, or a
  text (`SolutionsNeedNoSelect`).
* Writing the configuration, reading it back and evaluating again gives the same values exactly if no visible value
  exceeds its visibility, unless it is the select bound, and no range of a visible number is empty (`SavedIsLoaded`).
  Only a default can exceed the visibility (`UserValueKept`). `DefaultLost` and `NumberLost` are symbols
  that change, and `DefaultNotReloaded` follows the first one through its file.
* An entry without a prompt that takes a sibling passes it on to the list it stands in. If an entry with a prompt has
  taken the first one, the sibling ends up below an owner that it was never tested against, and may be reachable only
  through an owner that is off. `OwnersNeedNoRelay` shows that the owners are right for all conditions and values
  exactly if no list has this pattern; `SmallestRelay` is a menu of three entries that has it, and none has fewer.
* `sym_set_tristate_value` refuses a value that would take effect in exactly one situation, when the visibility is
  just the select bound (`AcceptedTakesEffect`, `EffectiveButRefused`). It accepts the current value without clearing
  anything, and what is valid stays right exactly if the symbol is invisible, or the value does not exceed the
  visibility or is the select bound (`SameValueKeeps`, `SameValueChanges`).
* A quoted constant prints without its quotes, so the printed expression parses back to itself exactly if every symbol
  is what its name stands for (`Printing.RoundTrip`).
* A correct counter of the SDIO device is refused while it and the host's counter are on different sides of the sign
  bit (`RefusedAcrossSign`, `RefusedInFlight`). This costs reads, not safety.
* On USB, a submission that fails gives back the newest chunks and runs into the BUG check exactly if older transfers
  still hold chunks at that moment (`FailedSubmission`, `FailureFires`). So does a completion after an earlier one that returned
  without giving its chunks back.

`dafny verify dfyconfig.toml` checks the whole project.

## Model

| member | source | states |
|---|---|---|
| Expressions.TwoValued | atbm_kconf/expr.h:45-47 | without `m` among the symbols and in the text, no expression has the value `m` |
| Expressions.ComparisonMeans | atbm_kconf/expr.c:938-977 | what a comparison compares: the text of a number or string, y, m or n for a boolean or tristate, and the name of a constant; it is never `m` |
| Elimination.EliminateYNValue | atbm_kconf/expr.c:231-312 | removing the constants y and n keeps the value in every environment |
| Elimination.EliminateYNNormal | atbm_kconf/expr.c:231-312 | the result has no constant operand left, is not larger, and is smaller whenever there was one |
| Elimination.EliminateEqInFactor | atbm_kconf/expr.c:130-162 | both slots lose one common value: old1 = op(v, new1) and old2 = op(v, new2) |
| Elimination.ExprEqSound | atbm_kconf/expr.c:189-229 | expressions that pass the equality test have the same value in every environment |
| Elimination.ExprEqReflexive | atbm_kconf/expr.c:189-229 | every expression passes the test against itself, through the mutual recursion with the eliminator |
| Elimination.EliminateEqImplies | atbm_kconf/expr.c:164-184 | if nothing but y is left of the second expression, the first one is never above it |
| Elimination.ExtractEqFactor | atbm_kconf/expr.c:848-875 | the accumulated factor and the two remainders keep both values, for any factor found before |
| Elimination.ExtractCommonFactor | atbm_kconf/expr.c:826-846 | each input is the extracted factor joined with its remainder, in every environment |
| Elimination.ExtractEqComplete | atbm_kconf/expr.c:848-875 | no two equal operands are left in the two remainders |
| Matching.EliminateEqInCancels | atbm_kconf/expr.c:130-162 | on two chains without constants, exactly the common operands are cancelled, as often as they occur in both, up to order and grouping |
| Matching.ExprEqExactly | atbm_kconf/expr.c:189-229 | without constant operands, the test accepts exactly the expressions that are the same up to order and grouping of their chains |
| Matching.ExprEqEquivalence | atbm_kconf/expr.c:189-229 | there it is symmetric and transitive |
| Matching.AbsorbedEqual | atbm_kconf/expr.c:130-229 | two chains of one operator that both have its absorbing constant are equal, whatever else they have |
| Matching.NotTransitive | atbm_kconf/expr.c:189-229 | with constant operands it is not transitive |
| Transformation.TransformValue | atbm_kconf/expr.c:636-771 | the rewriting keeps the value in every proper environment, `m` included |
| Transformation.TransformNormal | atbm_kconf/expr.c:636-771 | NOT ends up directly over symbols only, and no boolean symbol is compared with y, m or n |
| Transformation.TransformFixed | atbm_kconf/expr.c:636-771 | an expression is left alone exactly if it is in normal form |
| Transformation.TransformIdempotent | atbm_kconf/expr.c:636-771 | rewriting twice is rewriting once |
| Transformation.TransformNegatedChain | atbm_kconf/expr.c:716-733 | a negated AND becomes an OR and a negated OR an AND |
| Joining.JoinValue | atbm_kconf/expr.c:346-502 | a join has exactly the value of the pair it replaces, `m` included |
| Joining.ComparedConstants | atbm_kconf/expr.c:455-468 | (s = b) && (s != c) is s = b for different constants and n for equal ones |
| Joining.JoinFound | atbm_kconf/expr.c:346-502 | the pairs the joins are there for are joined: s and !s, two equalities in an OR, two inequalities or both kinds in an AND, s next to its own comparison |
| Joining.JoinExactly | atbm_kconf/expr.c:346-502 | two operands are joined exactly if they are equal, or one of the rules, listed as such, applies, and to what the rule says |
| Joining.JoinSmall | atbm_kconf/expr.c:346-502 | a join never grows the tree |
| Duplicates.Dups1Progress | atbm_kconf/expr.c:504-554 | the first pass never grows the tree, does nothing exactly if it counts nothing, and otherwise leaves a constant operand |
| Duplicates.Dups2Progress | atbm_kconf/expr.c:556-610 | the same for the second pass |
| Duplicates.Dups1Quiet | atbm_kconf/expr.c:504-554 | the first pass counts nothing exactly if no two operands of any chain can be joined |
| Duplicates.Dups2Quiet | atbm_kconf/expr.c:556-610 | the second pass counts nothing exactly if the contradiction test fails for every operand; which operands that are is said by `Contradictions.ContradictsExactly` |
| DuplicateMeaning.Dups1Value | atbm_kconf/expr.c:504-554 | the first pass keeps the value exactly, in all three values |
| DuplicateMeaning.ContradictsMeans | atbm_kconf/expr.c:574-604 | the contradiction test means that the other side is bounded by the negation; when it succeeds is `Contradictions.ContradictsExactly` |
| DuplicateMeaning.Dups2Refines | atbm_kconf/expr.c:556-610 | the second pass never changes a value that was y or n |
| DuplicateMeaning.EliminateDupsRefines | atbm_kconf/expr.c:612-634 | the whole elimination never changes a value that was y or n |
| DuplicateMeaning.EliminateDupsExact | atbm_kconf/expr.c:612-634 | without `m` it keeps every value |
| DuplicateMeaning.EliminateDupsNeedsModFree | atbm_kconf/expr.c:574-634 | it keeps the values of all expressions exactly in the environments without `m` |
| DuplicateMeaning.EliminateDupsSettles | atbm_kconf/expr.c:612-634 | the loop stops in an expression to which neither pass applies, and leaves exactly those alone; which these are is `Contradictions.LeftAloneExactly` |
| DuplicateMeaning.NoEqualOperands | atbm_kconf/expr.c:612-634 | in the result no two different operands of one chain, at any depth, are equal |
| DuplicateMeaning.NothingToJoin | atbm_kconf/expr.c:612-634 | nor does any chain of the result have two operands about one symbol of the kinds that `JoinFound` names |
| Contradictions.ExtractCommonExactly | atbm_kconf/expr.c:826-875 | without constant operands, nothing is left of the first expression exactly if its operands all occur in the second one, counted up to order and grouping |
| Contradictions.NegatedChain | atbm_kconf/expr.c:716-733 | NOT goes through a chain to its operands, in their order |
| Contradictions.NegationForms | atbm_kconf/expr.c:636-771 | the normal form of a negation has exactly the negated operands, and no constants |
| Contradictions.ContradictsExactly | atbm_kconf/expr.c:574-604 | for either operator, the contradiction test succeeds exactly if the operands of the negation all occur among those of the other side |
| Contradictions.ReplacedExactly | atbm_kconf/expr.c:574-604 | an operand becomes the absorbing constant exactly then, and otherwise stays as the pass has simplified it |
| Contradictions.NoContradiction | atbm_kconf/expr.c:612-634 | in the result no chain, AND or OR, at any depth, has an AND/OR operand whose negation's operands all occur in the chain |
| Contradictions.EliminateDupsConstantFree | atbm_kconf/expr.c:612-634 | the elimination leaves no constant operands where there were none |
| Contradictions.LeftAloneExactly | atbm_kconf/expr.c:612-634 | an expression is left alone exactly if no chain in it, at any depth, has operands that are equal, that a rule replaces, or that the rest of the chain contradicts |
| Contradictions.OpposedVanishes | atbm_kconf/expr.c:556-634 | (a AND b) OR (NOT a OR NOT b) becomes y, and the same with AND and OR exchanged becomes n |
| Contradictions.RepeatedVanishes | atbm_kconf/expr.c:504-554 | of a AND b AND a, b AND a is left: the first of two equal operands goes |
| InPlace.Rewriter.EliminateDups1 | atbm_kconf/expr.c:504-554 | the walk over two overlapping slots turns the tree into what the first pass gives for their operands, and counts the same rewrites |
| InPlace.Rewriter.JoinOperands | atbm_kconf/expr.c:520-551 | two operand slots: the aliased call on the first one, then the join overwrites both |
| InPlace.Rewriter.SimplifyOperand | atbm_kconf/expr.c:520-528 | the aliased call on one operand rewrites that operand only |
| InPlace.Rewriter.EliminateDups2 | atbm_kconf/expr.c:556-610 | the same for the second pass, with the comparison that follows the recursion into the second slot |
| InPlace.Rewriter.OpposeOperand | atbm_kconf/expr.c:571-607 | the last part of the second pass on an operand and any node of its chain |
| InPlace.Rewriter.ReplaceContradicted | atbm_kconf/expr.c:577-603 | a contradicted operand, and nothing else, becomes the absorbing constant; which operands these are is `Contradictions.ReplacedExactly` |
| InPlace.Rewriter.EliminateAll | atbm_kconf/expr.c:612-634 | the `while (1)` loop ends, equals the elimination function, and restores the counter |
| InPlacePair.BothOperands | atbm_kconf/expr.c:132-141 | overwriting one operand of a node and then the other replaces the node by the new one |
| InPlacePair.Pair.EliminateEqIn | atbm_kconf/expr.c:130-162 | the recursion over a slot in each of two trees writes what the eliminator gives, and nothing outside the slots |
| InPlacePair.Pair.EliminateEq | atbm_kconf/expr.c:164-184 | both switches and the constant elimination on the two trees |
| InPlacePair.Pair.ExtractEq | atbm_kconf/expr.c:848-875 | the same for the extraction, with the common operands appended to the factor in the order found |
| InPlacePair.Pair.ExtractCommon | atbm_kconf/expr.c:826-846 | afterwards each tree was the factor joined with what is left of it, in every environment |
| Comparing.TransCompareValue | atbm_kconf/expr.c:877-936 | the result is never `m`, and is the comparison whenever e is definite or no NOT in it meets `m` |
| Comparing.TransCompareExact | atbm_kconf/expr.c:877-936 | exact without `m`, and exact in all three values if NOT stands over comparisons only |
| Comparing.TransCompareNeedsModFree | atbm_kconf/expr.c:908-909 | exact for all expressions exactly in the environments without `m` |
| Comparing.TransCompareNeedsTypes | atbm_kconf/expr.c:928-929 | a bare symbol is compared exactly in all environments exactly if it has a logical type or is a literal |
| Comparing.TransBoolValue | atbm_kconf/expr.c:317-341 | after the normal form, "not `n`" is kept in every environment |
| Comparing.TransBoolNeedsNormalForm | atbm_kconf/expr.c:317-341 | without the normal form it is not |
| Comparing.TransBoolComplete | atbm_kconf/expr.c:317-341 | no comparison of a symbol with != n is left among what AND, OR and NOT combine, and exactly the expressions without one are left alone |
| Comparing.DependsContains | atbm_kconf/expr.c:773-824 | a symbol depended on occurs in the expression |
| Comparing.DependsMeans | atbm_kconf/expr.c:797-824 | a direct dependency that is not `n` makes the symbol not `n`; what is a direct dependency is `AdoptionTest.DependsExactly` |
| Comparing.DependsNeedsLogical | atbm_kconf/expr.c:797-824 | this holds in all environments exactly for boolean and tristate symbols |
| Comparing.OnlyContained | atbm_kconf/expr.c:773-795 | a value depends only on the symbols that the expression contains |
| MenuDependencies.EliminateDupsNormal | atbm_kconf/expr.c:612-634 | duplicate elimination keeps the normal form, so the later rewriting steps may rely on it |
| MenuDependencies.HandDownValue | atbm_kconf/menu.c:295-298 | what an entry gets is as definite as "parent and own", and not `n` only where both are not |
| MenuDependencies.HandDownPromptValue | atbm_kconf/menu.c:306-311 | a prompt is not visible where its entry is ruled out; the boolean rewriting does not change its visibility, and for a tristate or without a symbol there is none |
| MenuDependencies.HandedSettled | atbm_kconf/menu.c:295-328 | what is handed down, and both sides of the test for a submenu, have been rewritten and freed of duplicates |
| AdoptionTest.EntryHandedValue | atbm_kconf/menu.c:289-311 | the dependency of an entry is the one it was written with and the condition that decides about its menu; the conditions of its properties are theirs and that dependency, exactly so for a tristate or without a symbol, and otherwise as far as "not `n`" goes |
| MenuDependencies.NotNoValue | atbm_kconf/menu.c:321-346 | the rewritten test is y only where the expression is not `n`, exactly so when no NOT meets `m` |
| MenuDependencies.AdoptionSound | atbm_kconf/menu.c:321-346 | an adopted sibling that is not `n` has the condition of the adopter's prompt not `n`, or the adopter's symbol set; an adopter without a prompt tests nothing, which is what `OwnersNeedNoRelay` is about |
| MenuDependencies.AdoptionSoundWithoutMod | atbm_kconf/menu.c:321-346 | in particular for every such adopter in every environment without `m` |
| MenuDependencies.AdoptionNeedsModFree | atbm_kconf/menu.c:321-346 | the expression test is sound for all expressions exactly in the environments without `m` |
| AdoptionTest.DependsExactly | atbm_kconf/expr.c:797-824 | an expression depends on a symbol directly exactly if one of its conjuncts, wherever it stands, is the symbol, its being y or m, or its not being n |
| AdoptionTest.ImpliedExactly | atbm_kconf/expr.c:164-184 | nothing but y is left of the second expression exactly if it is y, or the first is a conjunction that has all its conjuncts |
| AdoptionTest.TakesExactly | atbm_kconf/menu.c:326-346 | a sibling is taken exactly if its condition mentions the symbol and has a conjunct about it or, both rewritten, all conjuncts of the condition of the adopter's prompt |
| AdoptionTest.UnrelatedStays | atbm_kconf/menu.c:326-331 | a sibling without a condition, or with one that does not mention the symbol, is not taken |
| AdoptionTest.ConjunctIsTaken | atbm_kconf/menu.c:326-346 | a sibling with a conjunct about the adopter's symbol is taken |
| AdoptionTest.DirectTaken | atbm_kconf/menu.c:325-350 | in the tree: the siblings behind an entry with a conjunct about its symbol all end up below it, whatever they take themselves |
| MenuTree.FinalizedOrder | atbm_kconf/menu.c:264-404 | adoption and flattening keep the preorder sequence of all entries |
| MenuTree.FinalizedTail | atbm_kconf/menu.c:325-350 | the siblings left over are an untouched tail of the list |
| MenuTree.FinalizedFlat | atbm_kconf/menu.c:395-404 | afterwards only entries with a prompt have submenus |
| MenuTree.FlattenedSubmenu | atbm_kconf/menu.c:395-404 | an entry with a prompt keeps its submenu, and the others have none left |
| MenuTree.TakenExactly | atbm_kconf/menu.c:326-346 | exactly the entries that pass the test are taken, up to the first that does not; the test itself is `AdoptionTest.TakesExactly` |
| MenuTree.FinalizedDistinct | atbm_kconf/menu.c:264-404 | no entry gets into two places |
| MenuTree.HandedDownImplies | atbm_kconf/menu.c:289-318 | where an entry is not ruled out, no menu around it is, up to the root |
| MenuOwners.OwnersFinalized | atbm_kconf/menu.c:321-404 | without relays, every entry that is not ruled out has an enabled owner after adoption and flattening |
| MenuRelays.NoRelay | atbm_kconf/menu.c:321-404 | nothing is relayed, under any conditions, if no list has the pattern |
| MenuRelays.RelayBreaks | atbm_kconf/menu.c:321-404 | with the pattern there are conditions, handed down as written, and values for which an entry that is not ruled out has an owner that is off |
| MenuRelays.OwnersNeedNoRelay | atbm_kconf/menu.c:321-404 | the owners are enabled for all conditions and values exactly if no list has the pattern |
| MenuRelays.SmallestRelay | atbm_kconf/menu.c:321-404 | a menu of three entries with the pattern, what becomes of it, and the third entry below one that is off; no menu with fewer entries has the pattern |
| MenuFinalize.Menus.HandDownEntry | atbm_kconf/menu.c:295-317 | one entry gets its dependency, all its properties their conditions, its select properties add to the bounds of their targets, and nothing else changes |
| MenuFinalize.Menus.HandDownProperty | atbm_kconf/menu.c:303-317 | one property gets its condition and, if it selects, adds "symbol and condition" to the bound of its target |
| MenuFinalize.Menus.HandDownTo | atbm_kconf/menu.c:289-318 | all entries of the list do, in order |
| MenuFinalize.Menus.Reparent | atbm_kconf/menu.c:396-400 | the entries below get the new parent, and the last one is found |
| MenuFinalize.Menus.FlattenEntry | atbm_kconf/menu.c:395-404 | a promptless entry's submenu is spliced in behind it |
| MenuFinalize.Menus.FlattenEntries | atbm_kconf/menu.c:355-404 | the flattening loop turns the list into the flattened list, its length changing under it |
| MenuFinalize.Menus.FinalizeSubmenu | atbm_kconf/menu.c:289-320 | the conditions are handed down to all properties and the entries finalised in order; exactly the entries below are handed to and entered |
| MenuFinalize.Menus.TakeWhilePassing | atbm_kconf/menu.c:325-346 | the adoption loop takes what the test allows (`AdoptionTest.TakesExactly`), with the links being changed under it |
| MenuFinalize.Menus.AttachSubmenu | atbm_kconf/menu.c:347-351 | the three writes that turn the taken siblings into a submenu |
| MenuFinalize.Menus.AddDirect | atbm_kconf/menu.c:353-353 | the dependency of an entry joins the direct dependency of its symbol |
| MenuCollect.CollectedStep | atbm_kconf/menu.c:319-346 | a loop over a list hands to and enters each entry exactly once, whatever its calls have taken |
| MenuCollect.LeavesExactly | atbm_kconf/menu.c:321-353 | the entries of symbols that were parsed without a submenu, and those only, look for siblings |
| MenuFinalize.Menus.Finalize | atbm_kconf/menu.c:264-404 | pointers, parents included, encode exactly the finalised tree; every entry has been handed its conditions; select bounds and direct dependencies are those of exactly the entries seen, in their order |
| MenuWalk.Climb | atbm_kconf/confdata.c:718-723 | going up ends at the next entry of the nearest ancestor that has one, or at the end |
| MenuWalk.Walk | atbm_kconf/confdata.c:670-725 | the stackless walk ends and visits the entries in preorder |
| MenuWalk.FinalizeRoot | atbm_kconf/menu.c:264-404 | from the root on: order kept, only prompted entries with submenus, conditions handed to every entry, and every entry of a symbol entered |
| MenuWalk.FinalizeAndWalk | atbm_kconf/confdata.c:779-812 | after finalisation every entry is visited exactly once, in the order in which it was parsed |
| SymbolGraph.RankDecreases | atbm_kconf/symbol.c:1090-1153 | without a loop, every reference leads to a symbol with fewer dependencies |
| SymbolGraph.FollowsExactly | atbm_kconf/symbol.c:1122-1153 | the search follows the select bound, the conditions of all properties but selects, and the values of defaults, and nothing else |
| SolutionLaws.FollowsEntries | atbm_kconf/symbol.c:1122-1153 | the same in terms of the entries of the menus |
| DependencyCheck.OrderedAcyclic | atbm_kconf/symbol.c:1192-1224 | an order in which each symbol follows all it refers to excludes loops |
| DependencyCheck.Checker.PrintRecursive | atbm_kconf/symbol.c:1029-1087 | the symbol is always found on the stack, and what is printed is a real loop |
| DependencyCheck.Checker.CheckDeps | atbm_kconf/symbol.c:1192-1224 | flags and stack are restored, a result is a symbol further down, and without a report all references are finished |
| DependencyCheck.Checker.CheckSymDeps | atbm_kconf/symbol.c:1122-1153 | the same for the references of one symbol in order |
| DependencyCheck.Checker.CheckExprDeps | atbm_kconf/symbol.c:1090-1119 | the same for an expression |
| DependencyCheck.Checker.CheckAll | atbm_kconf/zconf.tab.c:2280-2283 | a loop is reported if and only if there is one, every printed loop is real, no flag or stack entry is left, and the error count stays zero; the literals, which are not in the symbol table, are visited but on no loop |
| EvaluationMeaning.UniqueSolution | atbm_kconf/symbol.c:292-428 | on an acyclic graph the equations have exactly one solution |
| EvaluationMeaning.SolutionSane | atbm_kconf/symbol.c:373-374 | a solution never gives `m` to a boolean, nor to any symbol without modules |
| EvaluationMeaning.HighestPrompt | atbm_kconf/symbol.c:193-199 | the visibility is the highest of the prompt conditions |
| EvaluationMeaning.FirstDefault | atbm_kconf/symbol.c:115-125 | the default is that of the first property whose condition is not `n`, cut to that condition |
| EvaluationMeaning.NoDefault | atbm_kconf/symbol.c:115-125 | there is none exactly if no condition is active |
| EvaluationMeaning.FirstText | atbm_kconf/symbol.c:375-403 | the text of the default is that of the same property |
| EvaluationMeaning.FirstRange | atbm_kconf/symbol.c:127-137 | the range is that of the first range property whose condition is not `n` |
| EvaluationMeaning.EndsRead | atbm_kconf/symbol.c:139-153 | the end of a range has the value of its number, in the base of its own type, or for a constant in that of the symbol with the range |
| EvaluationMeaning.SolutionBounds | atbm_kconf/symbol.c:329-374 | a visible user value is cut to the visibility, otherwise the default counts; the select bound lifts either; a symbol is written exactly if it is visible, selected or has an active default |
| EvaluationMeaning.SolutionTexts | atbm_kconf/symbol.c:375-403 | a visible user text or else the default is the text, as far as its range allows; it is written exactly if there is a default or the symbol is visible; a number lies in its range exactly if the range is not empty |
| EvaluationMeaning.ClampedExactly | atbm_kconf/symbol.c:155-188 | a text is kept exactly if it lies in the range, and what replaces it does exactly if anything does: the low end if it is too low, the high end if it is too high |
| SolutionLaws.SelectedAtLeast | atbm_kconf/menu.c:312-317 | in a solution every boolean or tristate is at least what each select of it demands, symbol and condition of the selecting entry |
| SolutionLaws.BoundIsDemand | atbm_kconf/symbol.c:216-221 | the select bound is the highest of these demands, with m raised where there is none, and n without any |
| SolutionLaws.NothingGivesNo | atbm_kconf/symbol.c:329-374 | without user value, default and demand a symbol is n |
| SolutionLaws.VisibleByPrompts | atbm_kconf/symbol.c:193-203 | the visibility is the highest condition of the prompts of all entries of the symbol, with m raised where there is none |
| SolutionLaws.FirstDefaultOfEntries | atbm_kconf/symbol.c:115-125 | the first active default in the order of the text counts, with its value and its text |
| SolutionLaws.DefaultCounts | atbm_kconf/symbol.c:344-374 | it is the value of a symbol that is invisible or has no user value, unless the select bound is higher, and the symbol is written |
| SolutionLaws.TextOfDefault | atbm_kconf/symbol.c:375-403 | the text that a default lends: that of its symbol, the name of a constant, and n for a boolean or tristate |
| SolutionLaws.FirstRangeOfEntries | atbm_kconf/symbol.c:127-137 | the first active range in the order of the text counts |
| SolutionLaws.HighestDirect | atbm_kconf/menu.c:353-353 | the direct dependency collected for a symbol is the highest of its entries that have one |
| SolutionLaws.DirectByEntries | atbm_kconf/symbol.c:204-211 | the direct dependencies are unmet exactly if some entry has one and none of them is met |
| Numbers.NumberDecimal | atbm_kconf/symbol.c:183-187 | every int printed in decimal is read back as itself |
| Numbers.NumberHexadecimal | atbm_kconf/symbol.c:183-187 | every int printed in hexadecimal is read back as itself, negative ones included |
| Numbers.SignAndRest | atbm_kconf/symbol.c:139-153 | a sign counts, what stands behind the digits does not, and what is too large ends at the limits of a long |
| Numbers.SpacesSkipped | atbm_kconf/symbol.c:139-153 | spaces in front do not count |
| Numbers.NoDigits | atbm_kconf/symbol.c:139-153 | without digits the number is 0 |
| Numbers.ToIntWraps | atbm_kconf/symbol.c:139-153 | the conversion to int keeps the lowest 32 bits |
| EvaluationMeaning.VisibilityAgrees | atbm_kconf/symbol.c:188-226 | from a right cache, the visibility step stores the solution's visibility, direct dependency and select bound; what these are is `SolutionLaws.VisibleByPrompts`, `DirectByEntries` and `BoundIsDemand` |
| EvaluationMeaning.DefaultsAgree | atbm_kconf/symbol.c:115-125 | from a right cache, the first active default is the solution's |
| EvaluationMeaning.CalcAgrees | atbm_kconf/symbol.c:292-428 | evaluating a symbol below a rank keeps the cache right and touches nothing from that rank on |
| EvaluationMeaning.CalcRight | atbm_kconf/symbol.c:292-428 | whatever is valid is right, before and after, and the evaluated symbol is among it |
| EvaluationMeaning.EvalRight | atbm_kconf/expr.c:938-977 | expression evaluation through the cache gives the value in the solution |
| EvaluationMeaning.AnyOrder | atbm_kconf/symbol.c:292-436 | any sequence of evaluations stores the one solution, whatever stale values it starts from |
| EvaluationMeaning.OthersKeep | atbm_kconf/symbol.c:481-515 | a user value changes only symbols that depend on its symbol |
| EvaluationMeaning.AcceptedTakesEffect | atbm_kconf/symbol.c:462-479 | a new value is accepted exactly if it would become the value and the visibility is not just the select bound |
| EvaluationMeaning.EffectiveButRefused | atbm_kconf/symbol.c:462-479 | a tristate for which a value that would take effect is refused |
| EvaluationMeaning.SameValueKeeps | atbm_kconf/symbol.c:481-515 | setting the value a symbol has keeps the solution exactly if it is invisible, or the value does not exceed the visibility or is the select bound |
| EvaluationMeaning.SameValueChanges | atbm_kconf/symbol.c:481-515 | a tristate that loses its value when it is set to it |
| EvaluationMeaning.TextTakesEffect | atbm_kconf/symbol.c:375-403 | a new user text becomes the text of a visible symbol exactly if it lies in the range, and changes nothing for an invisible one |
| EvaluationMeaning.OrderIrrelevant | atbm_kconf/symbol.c:292-436 | on an acyclic graph every order of evaluations that reaches all symbols stores the one solution |
| MenuGraph.DefinitionCondition | atbm_kconf/menu.c:303-311 | the property of a symbol's definition gets a condition that mentions what the entry's dependency mentions |
| MenuGraph.EvaluatedIsFollowed | atbm_kconf/symbol.c:1122-1153 | whatever the evaluation of a symbol evaluates, the direct dependency included, the search for recursive dependencies follows, but for the ends of ranges |
| MenuGraph.CheckedIsAcyclic | atbm_kconf/symbol.c:1122-1153 | finished menus that pass the search are acyclic for the evaluation, if no range ends at a symbol with a type |
| MenuGraph.CheckedOrderIrrelevant | atbm_kconf/symbol.c:292-428 | they have one value per symbol for every order of evaluations, under the same condition |
| MenuGraph.CheckMenus | atbm_kconf/zconf.tab.c:2279-2283 | the search on finished menus reports a loop exactly if there is one; otherwise, under the same condition, every order of evaluations stores the solution |
| RangeEnds.RangeLoop | atbm_kconf/symbol.c:1132-1144 | with a range that ends at a symbol whose default is the number itself, the search passes and the evaluation goes round in a circle |
| RangeEnds.TwoSolutions | atbm_kconf/symbol.c:155-188 | that menu has a solution in which both numbers are 1, and one in which both are 0 |
| RangeEnds.NotOneSolution | atbm_kconf/symbol.c:292-428 | so no order of evaluations stores the only solution |
| RangeEnds.EndsNeedFixed | atbm_kconf/symbol.c:1122-1153 | all menus whose ranges end within a set of symbols are acyclic once they pass the search, exactly if the set has no symbol with a type |
| Evaluator.Solver.CalcValue | atbm_kconf/symbol.c:292-428 | the in-place evaluation leaves exactly the table that the functional evaluation gives, for any graph and every type |
| Evaluator.Solver.CalcVisibility | atbm_kconf/symbol.c:188-226 | the same for the visibility, the direct dependency and the select bound (`SolutionLaws.BoundIsDemand` says what the bound is) |
| Evaluator.Solver.CalcDefault | atbm_kconf/symbol.c:115-125 | the same for the search for a default |
| Evaluator.Solver.CalcTextValue | atbm_kconf/symbol.c:375-403 | the same for the text of a symbol, its default and its range |
| Evaluator.Solver.ValidateRange | atbm_kconf/symbol.c:155-188 | the same for the range: the first active one, low end before high end |
| Evaluator.Solver.ExprValue | atbm_kconf/expr.c:938-977 | the same for expressions |
| Evaluator.Solver.ClearAllValid | atbm_kconf/symbol.c:430-440 | all flags are cleared, then the symbol for modules is evaluated; on an acyclic graph what is valid is right |
| Evaluator.Solver.SetTristateValue | atbm_kconf/symbol.c:481-515 | an accepted new value is what every later evaluation finds, and symbols that do not depend on it keep theirs; for the current value, when what is valid stays right |
| VisibilityRewrite.PromptsAndDefaults | atbm_kconf/menu.c:303-311 | rewriting the conditions changes neither the visibility nor which default and range are active, once m counts as y |
| VisibilityRewrite.HighestSelect | atbm_kconf/menu.c:312-317 | the select bound has the value of the highest "symbol and condition" of the select properties |
| VisibilityRewrite.SolutionsUnchanged | atbm_kconf/menu.c:303-317 | rewriting leaves exactly the same solutions, with select bounds and all, if there are no modules or no boolean selects a tristate or a text |
| SelectRewrite.SelectHandedDown | atbm_kconf/menu.c:303-317 | the menu code makes `select T if X` of `select T if X != n` in a boolean |
| SelectRewrite.SolutionChanges | atbm_kconf/menu.c:310-317 | with X = m and A = y the select bound of T is m with the rewriting and y without |
| SelectRewrite.EquationsNeedNoSelect | atbm_kconf/menu.c:310-317 | for a given menu, the equations are the same for all conditions, user values and values exactly if there are no modules or no boolean selects a tristate or a text |
| SelectRewrite.SolutionsNeedNoSelect | atbm_kconf/menu.c:310-317 | for all menus whose selects are among given pairs, the solutions are the same exactly then |
| SelectRewrite.MenusUnchanged | atbm_kconf/menu.c:289-317 | the solutions of what finished menus leave are then those without the rewriting |
| VisibilityRewrite.OwnersInSolution | atbm_kconf/menu.c:321-404 | with evaluated values, every entry of the finished menus that is not ruled out has an enabled owner, if no list has the pattern |
| Printing.Parse | atbm_kconf/zconf.tab.c:1976-2029 | the parser's loop ends and gives what the shift-reduce rules give; what that is is `Grammar.ParsesExactly` |
| Grammar.RunText | atbm_kconf/zconf.tab.c:1976-2029 | in any context where an operand may stand, the tokens of a text are reduced to its meaning: a quoted name is a constant whatever the table of symbols holds, and a word is looked up |
| Grammar.ParsesExactly | atbm_kconf/zconf.tab.c:1976-2029 | the parser accepts exactly what the grammar spells, with precedences and grouping, and gives the meaning of what is written |
| Grammar.Unambiguous | atbm_kconf/zconf.tab.c:1976-2029 | what is written has one meaning |
| Printing.LookedUp | atbm_kconf/zconf.tab.c:2020-2029 | what a word stands for: y, m, n, or a symbol of the table with its type, or one without |
| Printing.RunPrint | atbm_kconf/expr.c:1053-1123 | in any context where an operand may stand, the printed tokens are reduced to the printed expression |
| Printing.FewestParentheses | atbm_kconf/expr.c:1053-1123 | there are only as many parentheses as precedences and grouping demand |
| Printing.ParsePrinted | atbm_kconf/expr.c:1053-1123 | parsing what was printed always succeeds, with chains grouped to the left and names looked up |
| Printing.RoundTrip | atbm_kconf/expr.c:1053-1123 | it gives the same tree up to grouping exactly if every symbol is what its name stands for; then with the same value and the same print |
| Printing.ToLeftValue | atbm_kconf/zconf.tab.c:2006-2014 | grouping to the left keeps the value |
| Printing.ToLeftFixed | atbm_kconf/zconf.tab.c:2006-2014 | exactly the expressions already grouped so are left alone |
| ConfigText.UnescapeEscape | atbm_kconf/confdata.c:153-166 | the reader's unescaping inverts the writer's escaping, whatever follows the closing quote |
| ConfigText.EscapeFacts | atbm_kconf/symbol.c:903-944 | length and characters of the escaped text |
| ConfigLaws.Escaped | atbm_kconf/symbol.c:903-944 | a quote and a backslash get a backslash in front, and nothing else changes |
| ConfigLaws.Formats | atbm_kconf/confdata.c:476-497 | the lines for a symbol of each type, and the title of a menu |
| ConfigText.LineRoundTrip | atbm_kconf/confdata.c:306-372 | a line is read back as the value it was written for exactly if the format can carry the value |
| ConfigText.CarriageReturn | atbm_kconf/confdata.c:346-351 | the same line with a carriage return before its end reads the same |
| ConfigText.SymbolRoundTrip | atbm_kconf/confdata.c:476-497 | what is written for a symbol is read back exactly if the value is valid for the type and has no line end |
| ConfigText.TitleIgnored | atbm_kconf/confdata.c:786-789 | writing a menu title has no effect on what is read exactly if it is not the text for an unset boolean or tristate symbol |
| ConfigText.FileRoundTrip | atbm_kconf/confdata.c:779-812 | of a whole file of such lines, with titles between them, exactly the values that the format can carry are read back |
| ConfigText.ReadFileOneLine | atbm_kconf/confdata.c:306-372 | the reader never stores a text with a line end in it |
| ConfigLaws.FirstCharacter | atbm_kconf/confdata.c:124-150 | of the value of a boolean or tristate only the first character counts |
| ConfigLaws.ValidIntExactly | atbm_kconf/symbol.c:547-560 | the texts that are valid for an int are exactly those that some number is printed as, and minus zero |
| ConfigLaws.ValidHexExactly | atbm_kconf/symbol.c:561-569 | valid for a hexadecimal number is, behind an optional prefix, anything that has only digits of base 16 |
| ConfigLaws.TextsTaken | atbm_kconf/confdata.c:151-183 | a number is taken as it stands if it is valid, and a string needs both quotes |
| ConfigLaws.OtherLines | atbm_kconf/confdata.c:306-372 | lines that are neither settings nor comments about unset symbols change nothing |
| ConfigLaws.UnknownOrRefused | atbm_kconf/confdata.c:340-372 | nor do lines about unknown symbols or with values that are refused |
| ConfigLaws.TextsStay | atbm_kconf/confdata.c:306-338 | the comment about an unset symbol does nothing to a number or string |
| ConfigLaws.LinesInOrder | atbm_kconf/confdata.c:306-372 | the lines are read one after the other, and the last one may lack its end |
| ConfigLaws.LineEnd | atbm_kconf/confdata.c:346-351 | the line end and one carriage return before it are cut off, and nothing else |
| ConfigBuffer.EscapedLength | atbm_kconf/symbol.c:903-921 | the computed length is the length of the quoted text and its terminator |
| ConfigBuffer.EscapeStringValue | atbm_kconf/symbol.c:903-944 | the buffer is filled exactly with the quoted text and its terminator |
| ConfigBuffer.DropFirst | atbm_kconf/confdata.c:161-161 | moving the rest of the buffer down removes one character of the string |
| ConfigBuffer.UnescapeInPlace | atbm_kconf/confdata.c:156-166 | the in-place loop succeeds exactly if there is a closing quote, and leaves the unescaped text |
| ConfigReader.TrimEndInPlace | atbm_kconf/confdata.c:346-351 | the line end and a carriage return before it are cut off |
| ConfigReader.Reader.SetSymbolValue | atbm_kconf/confdata.c:120-183 | the value of a symbol is set as its type demands, or the text is refused |
| ConfigReader.Reader.ReadLine | atbm_kconf/confdata.c:306-372 | one line, cut up in its buffer, changes the values as the line function says; behind a lone # what the buffer still holds counts |
| SaveAndLoad.WriteConfiguration | atbm_kconf/confdata.c:779-812 | the loop over the entries evaluates each symbol when it reaches it, and writes exactly the symbols of the solution that are to be written, each once, and the titles |
| SaveAndLoad.PrintedInOrder | atbm_kconf/confdata.c:779-812 | what is printed follows the order of the entries |
| SaveAndLoad.PrintedOne | atbm_kconf/confdata.c:779-812 | an entry prints its symbol if that is to be written and has not been, or its title |
| SaveAndLoad.SavedIsLoaded | atbm_kconf/confdata.c:779-812 | the file of a solution, read back as user values, has that solution again exactly if every visible value is kept by its visibility, select bound or range |
| SaveAndLoad.UserValueKept | atbm_kconf/symbol.c:340-343 | a user value that is in effect is kept |
| SaveAndLoad.InvisibleDropped | atbm_kconf/confdata.c:445-446 | dropping the user values of invisible symbols changes nothing |
| SaveAndLoad.DefaultLost | atbm_kconf/symbol.c:340-355 | a tristate with the default y and a prompt that is m is not kept |
| SaveAndLoad.DefaultNotReloaded | atbm_kconf/confdata.c:779-812 | the file written for that tristate does not bring its value back |
| SaveAndLoad.NumberLost | atbm_kconf/symbol.c:155-188 | nor is an int with an empty range |
| SdioCredit.CreditFromCounter | hal_apollo/bh_sdio.c:554-567 | a counter read since the start gives the credit that is really there, if it is used at all |
| SdioCredit.RefusedAcrossSign | hal_apollo/bh_sdio.c:554-559 | it is refused exactly while the two counters are on different sides of the sign bit |
| SdioCredit.RefusedInFlight | hal_apollo/bh_sdio.c:554-559 | a frame in flight over the sign bit has the true credit refused until it is transmitted |
| SdioCredit.StepSafe | hal_apollo/bh_sdio.c:554-567 | every step keeps 0 <= credit <= buffers - (sent - transmitted), across 32-bit wrap |
| SdioCredit.RunSafe | hal_apollo/bh_sdio.c:731-783 | so does every interleaving of reads, uses, sends, transmissions, restarts and start-ups, and no check fires |
| SdioCredit.EveryRunSafe | hal_apollo/apollo_sdio.c:1368-1374 | from power-up on |
| SdioCredit.RestartGivesCredit | hal_apollo/apollo_sdio.c:1368-1374 | at any time the firmware can be stopped, and when it is up again the credit is all its buffers |
| SdioCredit.HarmlessExactly | hal_apollo/bh_sdio.c:554-567 | any counter value is harmless exactly if it is refused or does not claim too many transmissions |
| SdioCredit.StaleReadUnsafe | hal_apollo/apollo_sdio.c:1309-1322 | a value read before a restart is not, which is why the transmit thread is stopped first |
| SdioCredit.CreditReturns | hal_apollo/bh_sdio.c:543-567 | once the device has transmitted everything, one read gives the full credit |
| SdioSender.Sender.UseCounterValue | hal_apollo/bh_sdio.c:554-567 | the section under the lock is the protocol's step |
| SdioSender.Sender.HaveEnoughSpace | hal_apollo/bh_sdio.c:520-582 | a run of the protocol that tells whether the credit is enough; it reads nothing if it was, and gives up only after four reads or a failed one; with the device idle one read is enough |
| SdioSender.Sender.WaitEnoughSpace | hal_apollo/bh_sdio.c:439-518 | the bounded polling loop is a run of the protocol that tells whether the credit is enough, and gives up only at its bound or after a failed read; with the device idle it succeeds |
| SdioSender.Sender.CountFrame | hal_apollo/bh_sdio.c:773-777 | counting a frame keeps the protocol safe, and its checks cannot fire |
| SdioSender.Sender.SendBurst | hal_apollo/bh_sdio.c:729-809 | a burst ends exactly because all frames are sent, the credit is not enough, the last one wants a confirmation or the next one may not fit; with credit for one a frame goes out; there are never more frames in the device than it has buffers, and the burst fits into the transmit buffer if no padded frame exceeds a slot |
| UsbRing.ChunksDisjoint | hal_apollo/apollo_usb.c:1811-1845 | chunks in use are disjoint and inside the buffer |
| UsbRing.WholeChunks | hal_apollo/apollo_usb.c:1897-1920 | the allocated buffer holds a whole number of chunks, at least one |
| UsbRing.PointersMeet | hal_apollo/apollo_usb.c:1799-1805 | the pointers meet exactly if no chunk or every chunk is in use |
| UsbRing.PickedFacts | hal_apollo/apollo_usb.c:1794-1809 | a look at the ring finds the next chunk, or nothing exactly if all are in use |
| UsbRing.GotFacts | hal_apollo/apollo_usb.c:1811-1845 | a new chunk goes to the end of those in use, flag and counter stay right, no check fires |
| UsbRing.FreedManyFacts | hal_apollo/apollo_usb.c:1848-1890 | the oldest chunks are released, flag and counter stay right, no check fires |
| UsbRing.Ring.Pick | hal_apollo/apollo_usb.c:1794-1809 | the section on the ring's fields is the function |
| UsbRing.Ring.Get | hal_apollo/apollo_usb.c:1811-1845 | the same for getting a chunk |
| UsbRing.Ring.Free | hal_apollo/apollo_usb.c:1848-1875 | the same for releasing one |
| UsbRing.Ring.FreeAll | hal_apollo/apollo_usb.c:1876-1890 | the same for the check and the release loop |
| UsbProtocol.GetGood | hal_apollo/apollo_usb.c:1443-1447 | a chunk seen at the last look is still there and follows without a gap, whatever was completed in between |
| UsbProtocol.ReleaseGood | hal_apollo/apollo_usb.c:1576-1578 | giving back the chunks of a failed submission passes the check exactly if nothing older holds chunks at that moment |
| UsbProtocol.CompleteGood | hal_apollo/apollo_usb.c:1304-1330 | a completion passes the check exactly if its transfer is the oldest that holds chunks |
| UsbProtocol.StepGood | hal_apollo/apollo_usb.c:1440-1580 | every step keeps the invariant, or fires a check, exactly if it releases chunks out of order |
| UsbProtocol.RunGood | hal_apollo/apollo_usb.c:1440-1580 | in every interleaving a check fires exactly if chunks are released out of the order of their allocation |
| UsbProtocol.EveryRunGood | hal_apollo/apollo_usb.c:1914-1920 | from the allocation of the buffer on |
| UsbProtocol.GoodMeans | hal_apollo/apollo_usb.c:1440-1522 | chunks of all transfers are disjoint and inside the buffer; those of the open one are the newest, contiguous and cover its bytes; flag and counter are right |
| UsbProtocol.FailedSubmission | hal_apollo/apollo_usb.c:1546-1578 | a failed submission, alone, fires the check exactly if an older transfer holds chunks |
| UsbProtocol.FailureFires | hal_apollo/apollo_usb.c:1546-1578 | a state from which it does, reached from the allocation on with two chunks |
| UsbTransmit.Transmitter.Unlocked | hal_apollo/apollo_usb.c:1268-1335 | completions that come in, in any order and with early returns, continue the run; none fires a check if chunks are given back oldest first |
| UsbTransmit.Transmitter.Completed | hal_apollo/apollo_usb.c:1268-1335 | one completion is a step of the protocol, and fires the check exactly if it gives back chunks that are not the oldest |
| UsbTransmit.Transmitter.Fill | hal_apollo/apollo_usb.c:1440-1522 | the aggregation loop with completions between its sections is a run of the protocol; it ends because no frame is ready, the last one has to be, or the chunks are full, and takes nothing only if nothing was ready or no chunk was free |
| UsbTransmit.Transmitter.Xmit | hal_apollo/apollo_usb.c:1390-1592 | so is the whole function, with any completions between its sections: a check fires exactly if chunks are released out of order; if completions are not, exactly if the submission failed and an older transfer still holds chunks; frames that are ready are sent unless all URBs or chunks are in use |

## Left out

- Choice groups: their evaluation, their branches of the dependency search and of the reader, and their menu entries.
- Elimination.ExprEqSound: one direction only; expressions with equal values need not pass the test. What it accepts is characterised without constant operands only (`Matching.ExprEqExactly`).
- Heap nodes and memory ownership of expressions: trees are values. Slots are paths in `InPlace` and `InPlacePair`; the other rewriting functions, which replace a node by their result, return new trees, and sharing between unrelated trees is not modelled.
- The global rewrite counter outside `expr_eliminate_dups`: the equality test saves and restores it.
- `expr_trans_compare` with the target m, and lists inside expressions. A range is a property with two ends.
- `expr_simplify_unmet_dep` and all warnings, messages and help texts.
- `visible if` of menus, and the checks of properties that only warn.
- MenuGraph.CheckMenus: that expressions only mention symbols of the table or literals is assumed of the finished declarations.
- Numbers: a `long` has 64 bits and an `int` 32, as on the usual platforms.
- Setting a text interactively (`sym_set_string_value`): its effect on the solution is `EvaluationMeaning.TextTakesEffect`, its test is not modelled.
- SaveAndLoad.SavedIsLoaded: names identify symbols, texts have no line end and user texts are valid, as the scanner, the reader and the setter see to; titles that read as comments about unset symbols are excluded (`ConfigText.TitleIgnored`). The reader's removal of user texts that are out of range comes after it.
- Changes of `modules_val` during an evaluation: whether modules are enabled is fixed, and the symbol for modules agrees with it.
- SYMBOL_CHANGED, SYMBOL_AUTO and the change count.
- Evaluator.Solver.SetTristateValue: choice values and their choice symbol are not modelled.
- The scanner, the tables of the generated parser and the hash table of symbols: a name is one token, and looking it up is a function.
- Reading the default configuration, file handling, growing of the line buffer, the header and tristate printers.
- ConfigReader.Reader.ReadLine: behind a lone # at the end of the file the buffer is taken to hold a terminated text, although the original may look at bytes that were never written.
- The mode of the SDIO sender after the bus is terminated, where the credit is forced, and the build with transmit confirmations.
- SdioSender.Sender.SendBurst: the write to the bus after the burst, and its failure, which halts the sender.
- The reads of the SDIO bus and the progress of the device are parameters: for each read, a failure or how far the device is behind.
- Submission and completion of USB transfers themselves: a submission succeeds or fails as a parameter says. Code behind a failed BUG check does not run.
- Sequence numbers, per-interface counters, power management and everything else of the drivers.
