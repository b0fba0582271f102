# Algorithms of the GCC 2.7.2 C front end and bytecode back end

A model in Dafny of the parts of this compiler that carry real algorithms, with proofs of what they
are for. Each part has a specification in pure functions, the code in the source's own form (classes
where the source updates state in place, loops where it loops), and theorems about the specification.

- **Caller-save insertion** (`caller-save.c`): `CallerSaveSpec` says what each piece of the scan does
  to the register sets, the counter and the insn chain, `CallerSavePass` is the pass itself.
  `CallerSaveSimulation` has two machines, one where a call changes only what it sets and one where it
  destroys the call-used registers, and `CallerSaveTheorem` shows that the rewritten code on the second
  does what the original does on the first. `CallerSaveExact` shows when this fails.
- **Expression rewriting** (`convert.c`, `c-convert.c`, `c-common.c`, and `get_unwidened` and
  `get_narrower` of `tree.c`): `Trees` has integer expression trees over types of any precision and
  sign, evaluated modulo powers of two in a state that side effects change, and `Extensions` what a
  chain of conversions does to a value. `IntegerConversion`, `ComparisonShortening` and
  `TruthConversion` are the rewriters, and the modules about their meaning show that the rewritten tree
  computes what the original did; `MinMaxNarrowing` shows when MIN and MAX do. Nothing is assumed of
  `fold` in general: each theorem asks that it keep type, value and side effects of the trees it is given
  in the conversion at hand (`Folds`, `Right`). It may turn a narrowed operation into a logical one, whose
  operands are converted again; `LogicalFolding` shows this to be right and gives an example, and
  `ConversionSettles` that it ends.
- **Scopes** (`c-decl.c`): `ScopeSpec` and `ScopeTable` have the binding levels, the meanings cached in
  identifiers and the BLOCK nodes. `ScopeMeaning` compares the cache with the search of the levels that
  defines the meaning of a name; `BlockTrees` compares the BLOCK nodes with the nesting of scopes.
- **Object segments** (`bc-emit.c`): a segment stands for a stream of bytes, names and references.
  `ObjectSpec` says what a stream looks like as a buffer with lists of offsets, `ObjectSegments` has the
  operations and the writer, `BytecodeFunctions` label backpatching and the pointer table.
- **Constants and conversions** (`cexp.c`, `c-lex.c`, `bc-optab.c`): the modules named `Preprocessor...`
  compare the eager evaluator of `#if` with short-circuit evaluation in exact arithmetic, whose laws are in
  `PreprocessorLaws`;
  `IntegerConstants` has the lexer's byte array, `ConversionSearch` the conversion chains and one round of
  the search for them, and `ConversionRounds` the whole search.

## Where the code falls short

Five properties the code is meant to have fail on some inputs. For each there is a lemma saying exactly
when it holds, and inputs on which it does not.

- A group of registers saved before a call may contain a register the call itself sets: only the first
  register of the group is tested (`caller-save.c:459`), not the others (`caller-save.c:691-697`). See
  `CallerSaveExact.InsertionRightIff` and `PairSavedAroundResult`.
- MIN and MAX may be narrowed to a type in which their operands compare the other way (`convert.c:249-267`):
  the operation is done in a signed or unsigned type by the outer type and what is inside the conversions,
  which need not agree with how the conversions extended the operands. It happens when signed operands
  become unsigned and then signed again, and also when the outer type is unsigned and the operands were
  cut off at different widths on the way to it. See `MinMaxNarrowing.MinNarrowingIff`, `UnequalModuli` and
  `SignLost`.
- `shorten_compare` takes an operand whose conversion changes sign below the nominal width for a single
  extension (`c-common.c:1672-1681`). See `ComparisonShorteningMeaning.ShortenRightIff`, `ShortenPairIff`
  and `MismatchWrong`.
- A local redeclaration that `duplicate_decls` rejects, of a name with no local meaning outside, leaves a
  meaning behind when the level is left (`c-decl.c:2296-2299`). See `ScopeMeaning.LookupAfterAnyRun`,
  `BalancedRestoresIff` and `LeftoverIsRead`.
- The walk that removes successful conversion chains steps past a success next to the one it has removed
  (`bc-optab.c:551-558`), which is then never collected, though it may be the cheapest. See
  `ConversionRounds.AllCollectedIff`, `CheapestIff` and `CheaperMissed`.

## Model

| member | source | states |
|---|---|---|
| `CallerSaveTheorem.BlockSimulates` | gcc-t800/gcc-2.7.2/caller-save.c:348-509 | for every block, whatever its insns compute and whatever calls destroy, the block with saves and restores gives each insn the same register values, the same rest of the world, and the same live registers at the end; what a pattern stores and what is live are defined apart from the pass |
| `CallerSaveTheorem.RunSimulates` | gcc-t800/gcc-2.7.2/caller-save.c:348-509 | every run through a function's blocks stays together with the original run, block for block, for any number of blocks; what a call destroys may differ at every visit |
| `CallerSaveExact.InsertionRightIff` | gcc-t800/gcc-2.7.2/caller-save.c:455-473 | with slots as setup_save_areas makes them and notes of every death, insertion is right for a block, whatever it computes, if and only if at no call there is a group in the slot table whose first register the call does not set, whose registers are all live, call-used, not fixed and not yet saved, and one of which the call sets and does not note as unused |
| `CallerSaveExact.StaleIffGroup` | gcc-t800/gcc-2.7.2/caller-save.c:459-470 | a call has one of its results saved along with a group if and only if there is such a group |
| `CallerSaveExact.RightIffNeverStale` | gcc-t800/gcc-2.7.2/caller-save.c:455-473 | the same for any slot layout, in terms of what the pass saves: right if and only if no call has one of its results saved along with a group |
| `CallerSaveExact.StaleBreaks` | gcc-t800/gcc-2.7.2/caller-save.c:455-473 | a saved result whose new value is waited for makes the rewritten block read, or leave, another value |
| `CallerSaveExact.PairSavedAroundResult` | gcc-t800/gcc-2.7.2/caller-save.c:691-697 | a call whose result register is saved together with its neighbour: all other hypotheses hold and the rewritten block is wrong |
| `CallerSaveExact.BlockKeepsInsns` | gcc-t800/gcc-2.7.2/caller-save.c:399-503 | the rewritten chain holds every original insn exactly once, in order |
| `CallerSaveTheorem.SingleWordNeverStale` | gcc-t800/gcc-2.7.2/caller-save.c:691-706 | where MOVE_MAX is UNITS_PER_WORD no result is ever saved along with a group |
| `CallerSaveInvariant.ScanKeeps` | gcc-t800/gcc-2.7.2/caller-save.c:399-503 | at every point of every scan: need-restore within saved, saved within live, a slot for every saved register, and the counter never below the number that need restoring |
| `CallerSaveInvariant.CallSavesExactly` | gcc-t800/gcc-2.7.2/caller-save.c:440-473 | right after a call the counter is the number saved, everything saved needs restoring, and every endangered register is saved |
| `CallerSaveInvariant.StepKeeps` | gcc-t800/gcc-2.7.2/caller-save.c:399-492 | one insn keeps the bookkeeping invariant |
| `CallerSaveInvariant.SaveScanSaves` | gcc-t800/gcc-2.7.2/caller-save.c:455-473 | the scan before a call saves every endangered register and only live, call-used, non-fixed ones |
| `CallerSaveInvariant.WalkRestores` | gcc-t800/gcc-2.7.2/caller-save.c:572-629 | restoring references brings back every saved register the pattern looks at and takes nothing else out of the need set |
| `CallerSaveSimulation.StepSim` | gcc-t800/gcc-2.7.2/caller-save.c:399-492 | one insn keeps the relation between the two machines: a saved register's slot, and a live register not needing restoring, hold the ideal value |
| `CallerSaveSimulation.WalkBrings` | gcc-t800/gcc-2.7.2/caller-save.c:572-629 | the restores put in front of an insn return exactly the registers taken off the need set to their ideal values |
| `CallerSaveSimulation.SaveGroupSim` | gcc-t800/gcc-2.7.2/caller-save.c:691-737 | one save insn stores the ideal values of its group in the slots of its members |
| `CallerSaveSimulation.ReadsWalked` | gcc-t800/gcc-2.7.2/caller-save.c:572-629 | every register whose value a pattern uses is among those restore_referenced_regs looks at |
| `CallerSaveSimulation.StoresAre` | gcc-t800/gcc-2.7.2/caller-save.c:516-542 | the registers set_reg_live marks are those a pattern stores: a register from its first word on, a word of one that is accessed at a word, every part of a parallel |
| `CallerSaveSimulation.ScanLive` | gcc-t800/gcc-2.7.2/caller-save.c:399-503 | at every point the registers the pass holds to be live are the live ones: those live at the start or stored since, less those noted dead or unused |
| `CallerSaveInvariant.SaveSizeLargest` | gcc-t800/gcc-2.7.2/caller-save.c:691-706 | no group that could be saved at a register is larger than the one saved |
| `CallerSaveInvariant.RestoreSizeLargest` | gcc-t800/gcc-2.7.2/caller-save.c:691-706 | nor one that could be restored |
| `CallerSavePass.CallerSave.SetupSaveAreas` | gcc-t800/gcc-2.7.2/caller-save.c:249-331 | run any number of times, it keeps old slots and gives every savable register in use across calls a word of its own; each group added has a save mode, lies wholly in registers in use that had no slot, and is the largest such at its first register; every register added is in such a group, and none is left that could start one; groups overlay the words of their members |
| `CallerSavePass.UsedIff` | gcc-t800/gcc-2.7.2/caller-save.c:262-279 | the registers in use are the call-used ones among those allocated to pseudos that cross calls |
| `CallerSavePass.SetupSuffices` | gcc-t800/gcc-2.7.2/caller-save.c:262-331 | when every register live across a call is one that setup_save_areas counted as in use across calls (assumed), slots set up for the registers counted keep every block from the abort of insert_save_restore |
| `CallerSavePass.AddedGroupApart` | gcc-t800/gcc-2.7.2/caller-save.c:287-318 | a new group shares no register with an old one |
| `CallerSavePass.AddedGroupOverlays` | gcc-t800/gcc-2.7.2/caller-save.c:308-318 | a group slot overlays exactly the single-word slots of its registers, in order |
| `CallerSavePass.CallerSave.SetRegLive` | gcc-t800/gcc-2.7.2/caller-save.c:516-542 | marks the registers live, neither saved nor in need of restoring, and leaves the counter |
| `CallerSavePass.CallerSave.ClearRegLive` | gcc-t800/gcc-2.7.2/caller-save.c:548-566 | the same for registers that die |
| `CallerSavePass.CallerSave.InsertSaveRestore` | gcc-t800/gcc-2.7.2/caller-save.c:645-790 | saves or restores the largest group possible and updates sets, counter and chain as specified |
| `CallerSavePass.CallerSave.RestoreReferencedRegs` | gcc-t800/gcc-2.7.2/caller-save.c:572-629 | the walk over a pattern computes the specified restores |
| `CallerSavePass.CallerSave.SaveAcrossCall` | gcc-t800/gcc-2.7.2/caller-save.c:455-473 | the scan before a call computes the specified saves; the abort is not reached |
| `CallerSavePass.CallerSave.ScanCall` | gcc-t800/gcc-2.7.2/caller-save.c:436-474 | the call branch of the scan |
| `CallerSavePass.CallerSave.ScanInsn` | gcc-t800/gcc-2.7.2/caller-save.c:399-492 | one chain element of the scan |
| `CallerSavePass.CallerSave.SaveCallClobberedRegs` | gcc-t800/gcc-2.7.2/caller-save.c:348-509 | the pass over a block produces the chain that BlockSimulates is about and ends with nothing left to restore |
| `IntegerConversionMeaning.ConvertMeans` | gcc-t800/gcc-2.7.2/convert.c:137-404 | for every tree whose MIN and MAX are not narrowed, or have order survive the narrowing (a test on the two chains of conversions): if fold does its work on each tree it is given in this conversion, the result has the type asked for and, in every state, the original value truncated to it and the original side effects |
| `MinMaxNarrowing.MinNarrowingIff` | gcc-t800/gcc-2.7.2/convert.c:249-267 | where fold does its work, converting the minimum or maximum of two variables, each under conversions of any number and kind, to any integer type is right for all values if and only if the guard refuses or order survives the narrowing, a test on the two chains of conversions |
| `MinMaxNarrowing.ConvertedWrong` | gcc-t800/gcc-2.7.2/convert.c:249-267 | otherwise values of the variables make the result differ from the original in the lowest bit, whatever fold does that is right |
| `MinMaxNarrowing.UnequalModuli` | gcc-t800/gcc-2.7.2/convert.c:249-267 | a family that fails: the outer type unsigned, one signed operand converted to it directly and the other by way of a narrower unsigned type |
| `MinMaxNarrowing.SignLost` | gcc-t800/gcc-2.7.2/convert.c:249-267 | a family that fails: both signed operands converted to an unsigned type and then to a signed one |
| `Extensions.OrderKept` | gcc-t800/gcc-2.7.2/convert.c:249-267 | where order survives, values of two chains of conversions with different low bits compare in the narrow type as they do themselves |
| `Trees.ChainValue` | gcc-t800/gcc-2.7.2/tree.c:3996-4075 | any number of conversions has the value of one extension: by zeros, by sign, or by sign and then cut off |
| `IntegerConversionMeaning.ShiftedOutMeans` | gcc-t800/gcc-2.7.2/convert.c:217-247 | a left shift by the whole width or more is zero, keeping side effects |
| `IntegerConversionMeaning.OperationLow` | gcc-t800/gcc-2.7.2/convert.c:269-318 | plus, minus, and, or, xor, andtc, multiplication, minimum, maximum and shifts done in the narrow working type have the low bits of the wide result |
| `ConversionSettles.Settles` | gcc-t800/gcc-2.7.2/convert.c:137-404 | convert and convert_to_integer, calling each other and what fold has made of a narrowed tree, end: when folding leaves no larger part wider than the type than it was given, conversions within one another to the depth of the size of the tree are enough, and a greater depth gives the same result |
| `ConversionSettles.LogicalSettles` | gcc-t800/gcc-2.7.2/fold-const.c:3203-3227 | so they end on every tree with a fold that makes logical operations out of & and | of truth values |
| `ConversionSettles.ConvertTyped` | gcc-t800/gcc-2.7.2/c-convert.c:59-96 | the result has the type asked for if fold keeps the type of each tree it is given |
| `LogicalFolding.LogicalBits` | gcc-t800/gcc-2.7.2/fold-const.c:3203-3227 | the logical operation fold makes out of & or | of two values that are 0 or 1 has the same value and side effects, and is as the front end builds trees |
| `LogicalFolding.LogicalFoldRight` | gcc-t800/gcc-2.7.2/fold-const.c:3203-3227 | a fold that does this to truth values, and to a truth value and a mask with 1, does its work on every tree |
| `LogicalFolding.LogicalInTheEnd` | gcc-t800/gcc-2.7.2/convert.c:155-163 | (a < b) & (long) (z & 1) converted to char: the narrowed operation is folded to a logical one, whose operands are converted again; with this fold it is an input of the theorem on conversion |
| `IntegerConversion.TypexNarrower` | gcc-t800/gcc-2.7.2/convert.c:298-352 | past the early returns the working type is always narrower than the operand's, so the tests on its precision are always true |
| `Trees.GetUnwidened` | gcc-t800/gcc-2.7.2/tree.c:3996-4075 | the loop finds the tree that the recursive description finds |
| `Trees.UnwidenKeeps` | gcc-t800/gcc-2.7.2/tree.c:3996-4075 | what get_unwidened strips does not change the bits asked for, nor side effects |
| `Trees.NoEffects` | gcc-t800/gcc-2.7.2/convert.c:236-243 | a tree not marked as having side effects changes nothing |
| `ComparisonShortening.ShortenCompare` | gcc-t800/gcc-2.7.2/c-common.c:1655-1969 | the code, with its overwritten operands, type and operator, computes the specified comparison or constant |
| `ComparisonShortening.GetNarrower` | gcc-t800/gcc-2.7.2/tree.c:4086-4170 | the loop finds the tree and signedness that the recursive description finds |
| `ComparisonShorteningMeaning.ShortenMeans` | gcc-t800/gcc-2.7.2/c-common.c:1655-1969 | for all precisions, signs and operators and all operands no wider than the nominal type: if fold does its work in the conversions made, and MIN and MAX converted have order survive, then unless a shortcut is taken on a conversion mistaken for a single extension and the mistake can show, the shortened comparison or the constant found has the truth value of comparing both operands converted to the nominal type, with the side effects of both |
| `ComparisonShorteningMeaning.ShortenRightIff` | gcc-t800/gcc-2.7.2/c-common.c:1672-1681 | comparing a variable under any number of conversions, all stripped, with a constant of the nominal type is shortened rightly for every value of either if and only if the conversions are not mistaken for a single extension |
| `ComparisonShorteningMeaning.ShortenPairIff` | gcc-t800/gcc-2.7.2/c-common.c:1901-1915 | two different variables stripped of any number of conversions are compared rightly, by equality or by order and for all values, if and only if no shortcut is taken, neither conversion is mistaken for a single extension, or the mistake cannot show: both change sign at one width, or the wider of two zero-extended ones does, and the comparison is for equality or unsigned |
| `ComparisonShorteningMeaning.MismatchWrong` | gcc-t800/gcc-2.7.2/c-common.c:1672-1681 | for all conversions so mistaken, and every operator, there are a value of the variable and a constant compared wrongly |
| `ComparisonShorteningMeaning.NarrowerFromExtends` | gcc-t800/gcc-2.7.2/tree.c:4086-4170 | re-extending what get_narrower finds, by the sign it reports, gives the value of the operand |
| `ComparisonShorteningMeaning.ConstantAnswerRight` | gcc-t800/gcc-2.7.2/c-common.c:1691-1725 | range analysis against the least and greatest value of the operand's type answers as the comparison would for every value of the type |
| `ComparisonShorteningMeaning.AgainstConstantMeans` | gcc-t800/gcc-2.7.2/c-common.c:1691-1887 | the constant case keeps the truth value, with the limits of a type that is sign-extended but unsigned |
| `ComparisonShorteningMeaning.BothNarrowMeans` | gcc-t800/gcc-2.7.2/c-common.c:1901-1915 | two operands extended alike compare in their common narrow type as in the nominal one |
| `ComparisonShorteningMeaning.NominalMeans` | gcc-t800/gcc-2.7.2/c-common.c:1916-1969 | without a shortcut the operands are compared in the nominal type; an unsigned number is never below zero |
| `TruthConversion.TruthMeans` | gcc-t800/gcc-2.7.2/c-common.c:1983-2142 | for every integer expression whose arithmetic has the width of its operands and whose rotations may have their operands evaluated in either order: if fold and build_binary_op do their work on what they are given, the result is 1 exactly when the expression is nonzero and 0 otherwise, keeps all side effects, and has the type of truth values |
| `TruthConversion.PlainBuilds` | gcc-t800/gcc-2.7.2/c-common.c:2101-2142 | a fold that does nothing and a build_binary_op that makes a comparison do this for every such expression |
| `TruthConversion.RotationTruth` | gcc-t800/gcc-2.7.2/c-common.c:2071-2079 | a rotation is nonzero exactly when its operand is; a count with side effects is kept, and evaluated first, which is assumed not to matter |
| `TruthConversion.DifferenceTruth` | gcc-t800/gcc-2.7.2/c-common.c:2101-2118 | a difference or exclusive or is nonzero exactly when its operands, in one type, differ |
| `TruthConversion.WideningTruth` | gcc-t800/gcc-2.7.2/c-common.c:2094-2099 | a conversion to at least as many bits can be ignored |
| `TruthConversion.UnaryTruth` | gcc-t800/gcc-2.7.2/c-common.c:2064-2069 | negation, absolute value and find-first-set do not change whether a value is zero |
| `ScopeMeaning.LookupAfterAnyRun` | gcc-t800/gcc-2.7.2/c-decl.c:301-303 | in every state reached lookup_name finds what searching the levels outward finds, unless it reads a leftover; and a name has a leftover if and only if some level was left that declared it twice where it had no local meaning outside |
| `ScopeMeaning.LookupIsSearch` | gcc-t800/gcc-2.7.2/c-decl.c:2701-2712 | in every run where each redeclaration in a local level is accepted, lookup_name is the search of the levels, for every name |
| `ScopeMeaning.LookupIsSearchIff` | gcc-t800/gcc-2.7.2/c-decl.c:2701-2712 | in every state with the cache invariant the two differ exactly when the cached meaning is a leftover no level declares |
| `ScopeMeaning.EarlyExitLosesNothing` | gcc-t800/gcc-2.7.2/c-decl.c:2716-2756 | the early exits find the same declaration as walking the current level would |
| `ScopeMeaning.BalancedRestoresIff` | gcc-t800/gcc-2.7.2/c-decl.c:1017-1038 | a balanced run of entering, declaring and leaving restores a name's local meaning if and only if it had one or no level declared it twice where it meant nothing |
| `ScopeMeaning.LeftoverIsRead` | gcc-t800/gcc-2.7.2/c-decl.c:2156-2299 | two rejected declarations in one scope: after it is left the name still means the first of them |
| `ScopeMeaning.StepKeeps` | gcc-t800/gcc-2.7.2/c-decl.c:2156-2299 | every step keeps the invariant that the local slot is the innermost local declaration, or a leftover, and that each undo list restores what was outside |
| `ScopeMeaning.AcceptedNeverDoubled` | gcc-t800/gcc-2.7.2/c-decl.c:1928-1963 | while redeclarations are accepted no local level declares a name twice |
| `ScopeMeaning.RepeatedMeans` | gcc-t800/gcc-2.7.2/c-decl.c:1876-1937 | the declaration that a new one may repeat is that of its name in the current level, or for a public external one that of the global level if the current one has none |
| `ScopeMeaning.ReusesMeans` | gcc-t800/gcc-2.7.2/c-decl.c:1928-1990 | an accepted one stands for both if it is a parameter, or nothing global is declared, or it is what the name means now |
| `BlockTrees.RunForest` | gcc-t800/gcc-2.7.2/c-decl.c:995-1169 | every run from a state with the invariant keeps it: each BLOCK made hangs from exactly one place, and its supercontext is the block it is a subblock of |
| `BlockTrees.ReachedForest` | gcc-t800/gcc-2.7.2/c-decl.c:995-1169 | so in every state reached from the start of a compilation |
| `BlockTrees.PopReferences` | gcc-t800/gcc-2.7.2/c-decl.c:995-1105 | leaving a level loses and duplicates no block and adds the one made |
| `BlockTrees.BodyAdds` | gcc-t800/gcc-2.7.2/c-decl.c:995-1105 | working through a scope adds to its level the blocks of the scopes inside, nested as the scopes are, in closing order; a scope makes one exactly when it is left with keep, was announced to be kept, or was announced to be kept with subblocks and has some, and otherwise its inner blocks are carried outward; a block has the declarations of its scope in the order asked for |
| `BlockTrees.FunctionTree` | gcc-t800/gcc-2.7.2/c-decl.c:1040-1089 | a function body becomes one tree whose root has the names of the body and exactly the blocks of the scopes inside; the level outside gets none |
| `BlockTrees.BodyRuns` | gcc-t800/gcc-2.7.2/c-decl.c:850-1132 | working through a scope is one of the runs the invariants are proved for |
| `BlockTrees.WithoutKeeps` | gcc-t800/gcc-2.7.2/c-decl.c:1138-1156 | a block taken out of a chain leaves the others in their order |
| `ScopeTable.Scopes.PushLevel` | gcc-t800/gcc-2.7.2/c-decl.c:850-891 | a new, clear level with the pending keep flags, which are cleared; what each flag does when the level is left is in BodyAdds |
| `ScopeTable.Scopes.PopLevel` | gcc-t800/gcc-2.7.2/c-decl.c:908-1132 | makes the block, tells the subblocks, clears and restores meanings, and disposes of the blocks as specified |
| `ScopeTable.Scopes.PushDecl` | gcc-t800/gcc-2.7.2/c-decl.c:1876-2301 | returns the declaration repeated, or installs the new one with an undo entry when a local meaning is shadowed |
| `ScopeTable.Scopes.PushDeclTopLevel` | gcc-t800/gcc-2.7.2/c-decl.c:2305-2316 | the same in the global level, whatever the current one |
| `ScopeTable.Scopes.LookupName` | gcc-t800/gcc-2.7.2/c-decl.c:2701-2712 | the cached local meaning inside a function, else the global one |
| `ScopeTable.Scopes.LookupNameCurrentLevel` | gcc-t800/gcc-2.7.2/c-decl.c:2716-2733 | the declaration of the current level, if any |
| `ScopeTable.Scopes.LookupNameCurrentLevelGlobal` | gcc-t800/gcc-2.7.2/c-decl.c:2738-2756 | the same, or else the global meaning |
| `ScopeTable.Scopes.DeleteBlock` | gcc-t800/gcc-2.7.2/c-decl.c:1138-1156 | the block is in the level's chain no more and the others keep their order |
| `ScopeTable.Scopes.InsertBlock` | gcc-t800/gcc-2.7.2/c-decl.c:1162-1169 | the block is the last of the level's chain |
| `ObjectSegments.Segment.SegData` | gcc-t800/gcc-2.7.2/bc-emit.c:201-216 | bytes are appended; everything before them, and every name and reference, stays |
| `ObjectSegments.Segment.SegAlign` | gcc-t800/gcc-2.7.2/bc-emit.c:181-197 | the segment is filled with zeros to the next multiple |
| `ObjectSegments.Segment.SegSkip` | gcc-t800/gcc-2.7.2/bc-emit.c:220-235 | zeros are appended |
| `ObjectSegments.Segment.SegDefsym` | gcc-t800/gcc-2.7.2/bc-emit.c:239-259 | a name not defined before is put at the current place, its other flags kept; a defined one is refused and nothing changes |
| `ObjectSegments.Segment.SegRefsym` | gcc-t800/gcc-2.7.2/bc-emit.c:263-279 | a reference and its addend are put at the current place |
| `ObjectSegments.Segment.SegConcat` | gcc-t800/gcc-2.7.2/bc-emit.c:283-318 | the stream of the second segment follows that of the first, padded; every name and reference of either is still at its byte |
| `ObjectSpec.ConcatKeeps` | gcc-t800/gcc-2.7.2/bc-emit.c:296-318 | moving the values of the appended names and the offsets of its references by the size in front keeps each at its place in the joined stream |
| `ObjectSpec.AppendPlain` | gcc-t800/gcc-2.7.2/bc-emit.c:181-235 | bytes appended move no name and no reference |
| `ObjectSpec.SegmentOrdered` | gcc-t800/gcc-2.7.2/bc-emit.c:239-318 | in every segment built, names and references are in descending order of offset, references do not overlap, and no name is inside one |
| `ObjectSpec.AlignUpIs` | gcc-t800/gcc-2.7.2/bc-emit.c:188 | the next multiple of the alignment, no further than needed |
| `ObjectSegments.Segment.SegWrite` | gcc-t800/gcc-2.7.2/bc-emit.c:321-391 | the one forward pass writes exactly the stream the segment was built from, each name and reference once and in order; the abort is reached if and only if the stream ends in a name |
| `BytecodeFunctions.PatchedReference` | gcc-t800/gcc-2.7.2/bc-emit.c:603-608 | after backpatching every reference to a defined label holds that label's offset |
| `BytecodeFunctions.PatchedElsewhere` | gcc-t800/gcc-2.7.2/bc-emit.c:603-608 | no byte outside the references to defined labels changes |
| `BytecodeFunctions.PointerTable` | gcc-t800/gcc-2.7.2/bc-emit.c:573-587 | the table's name is its first byte, and its entry k is the place to be relocated for external name k, with its addend |
| `BytecodeFunctions.IndexSelects` | gcc-t800/gcc-2.7.2/bc-emit.c:573-637 | in the text with the finished function in it, the index in the bytecode for each external name, times the size of an entry, is the offset in the pointer table of the reference to that name |
| `BytecodeFunctions.FunctionCode.constructor` | gcc-t800/gcc-2.7.2/bc-emit.c:478-487 | the three segments of a function; its name at the start of the trampoline |
| `BytecodeFunctions.FunctionCode.AlignBytecode` | gcc-t800/gcc-2.7.2/bc-emit.c:490-495 | zeros are appended to the bytecode up to the next multiple |
| `BytecodeFunctions.FunctionCode.GetLabel` | gcc-t800/gcc-2.7.2/bc-emit.c:512-524 | a label not defined yet, different from all before |
| `BytecodeFunctions.FunctionCode.LabelDef` | gcc-t800/gcc-2.7.2/bc-emit.c:527-546 | a label is defined once, here |
| `BytecodeFunctions.FunctionCode.EmitLabelRef` | gcc-t800/gcc-2.7.2/bc-emit.c:550-568 | room for an offset, remembered for backpatching; references never overlap |
| `BytecodeFunctions.FunctionCode.EmitCodeLabelRef` | gcc-t800/gcc-2.7.2/bc-emit.c:573-587 | the index of the external name goes into the bytecode, at a place kept clear of all labels, and the name into the pointer table |
| `BytecodeFunctions.FunctionCode.Backpatch` | gcc-t800/gcc-2.7.2/bc-emit.c:602-608 | the bytecode becomes the patched bytecode and is still all of its segment |
| `BytecodeFunctions.FunctionCode.EndFunction` | gcc-t800/gcc-2.7.2/bc-emit.c:593-637 | the text is the old text, the trampoline, the patched bytecode and the pointer table under its name, each aligned, with every name and reference at its place; the index of each external name is still in the bytecode; symbols of other segments do not change |
| `PreprocessorEvaluation.Evaluator.Evaluate` | gcc-t800/gcc-2.7.2/cexp.c:820-1045 | for every expression the bottom-up actions leave skip_evaluation as it was, give the value and signedness that short-circuit evaluation in exact arithmetic gives, and report overflow and division by zero for exactly the operands it evaluates |
| `PreprocessorSpec.MeaningInType` | gcc-t800/gcc-2.7.2/cexp.c:820-1045 | every value is in the range of its type, and the type does not depend on what is evaluated |
| `PreprocessorOverflow.NegateExact` | gcc-t800/gcc-2.7.2/cexp.c:833-838 | the sign test flags a negation exactly when it is out of range |
| `PreprocessorOverflow.MultiplyExact` | gcc-t800/gcc-2.7.2/cexp.c:875-888 | the division and sign tests flag a product exactly when it is out of range, at every width |
| `PreprocessorOverflow.DivideExact` | gcc-t800/gcc-2.7.2/cexp.c:889-905 | the sign test flags a quotient exactly when it is out of range |
| `PreprocessorOverflow.AddExact` | gcc-t800/gcc-2.7.2/cexp.c:921-930 | possible_sum_sign flags a sum exactly when it is out of range |
| `PreprocessorOverflow.SubtractExact` | gcc-t800/gcc-2.7.2/cexp.c:931-938 | and a difference |
| `PreprocessorOverflow.PossibleSum` | gcc-t800/gcc-2.7.2/cexp.c:132-134 | the macro says whether numbers of two signs can add up to one of a third |
| `PreprocessorEvaluation.ShiftAgrees` | gcc-t800/gcc-2.7.2/cexp.c:939-954 | shifting by a negative count goes the other way, and by the width or more leaves the sign only: the exact product with a power of two, rounded down, brought into the type |
| `PreprocessorEvaluation.LeftShiftIs` | gcc-t800/gcc-2.7.2/cexp.c:1808-1822 | left_shift is multiplication by a power of two in the type |
| `PreprocessorEvaluation.RightShiftIs` | gcc-t800/gcc-2.7.2/cexp.c:1824-1835 | right_shift is division rounding down |
| `PreprocessorEvaluation.CompareAgrees` | gcc-t800/gcc-2.7.2/cexp.c:955-996 | comparisons are those of the operands in their common type |
| `IntegerTypes.BitOpSums` | gcc-t800/gcc-2.7.2/cexp.c:997-1011 | the conjunction and the inclusive or of two numbers add up to their sum, and the exclusive or is their difference |
| `PreprocessorLaws.OneComparisonHolds` | gcc-t800/gcc-2.7.2/cexp.c:955-996 | exactly one of <, == and > holds of any two numbers of either type, the other three are their negations, and turning the operands round turns the operator round |
| `PreprocessorLaws.LessThanIs` | gcc-t800/gcc-2.7.2/cexp.c:981-988 | numbers of one type compare as they stand; a negative one beside an unsigned one counts as two to the width more |
| `PreprocessorLaws.DivisionLaw` | gcc-t800/gcc-2.7.2/cexp.c:889-920 | quotient times divisor plus remainder is the dividend again, and the remainder is smaller than the divisor and has the sign of the dividend |
| `PreprocessorLaws.SubtractedBack` | gcc-t800/gcc-2.7.2/cexp.c:921-938 | what is subtracted can be added back, whether or not it overflows |
| `PreprocessorLaws.NegationLaws` | gcc-t800/gcc-2.7.2/cexp.c:833-853 | a number and its negation add up to zero; negating is subtracting from zero, and is inverting the bits and adding one |
| `PreprocessorLaws.NotIsEqual` | gcc-t800/gcc-2.7.2/cexp.c:840-843 | ! is comparison with zero, in value and reports, for every expression |
| `PreprocessorLaws.LogicalIsConditional` | gcc-t800/gcc-2.7.2/cexp.c:1012-1045 | && and || are conditionals: the same number and the same reports of the operands evaluated |
| `PreprocessorLaws.Negations` | gcc-t800/gcc-2.7.2/cexp.c:1012-1045 | De Morgan's laws and a conditional turned round, in value and reports |
| `PreprocessorLaws.Unheard` | gcc-t800/gcc-2.7.2/cexp.c:1012-1045 | an operand not called for changes neither value nor reports |
| `PreprocessorEvaluation.Evaluator.IntegerOverflow` | gcc-t800/gcc-2.7.2/cexp.c:1801-1806 | reported only when pedantic and the operand is called for |
| `PreprocessorNumber.ParseNumber` | gcc-t800/gcc-2.7.2/cexp.c:1297-1392 | for a text of any length: the error, or the number denoted modulo two to the width, unsigned if too big to be signed, the overflow flag set exactly when the number is too big, the radix flag exactly when a digit is beyond it |
| `PreprocessorNumber.NumberMeans` | gcc-t800/gcc-2.7.2/cexp.c:1297-1392 | for a text of prefix, digits and letters: rejected for a point, or for letters other than one l and one u; otherwise a signed number congruent to what its digits denote in the base of the prefix, each worth its place in the alphabet of digits, overflow exactly from two to the width on, unsigned exactly when marked so or with the top bit set, beyond the radix exactly for an octal 8 or 9 |
| `PreprocessorNumber.TextOf` | gcc-t800/gcc-2.7.2/cexp.c:1318-1362 | every text has such parts |
| `PreprocessorNumber.SuffixError` | gcc-t800/gcc-2.7.2/cexp.c:1343-1362 | the error is that of the first letter that is one too many or not a suffix |
| `PreprocessorNumber.StickyStep` | gcc-t800/gcc-2.7.2/cexp.c:1365-1368 | the two tests notice exactly the digit at which the number leaves the range |
| `IntegerConstants.AddDigit` | gcc-t800/gcc-2.7.2/c-lex.c:1240-1252 | one digit multiplies the number the parts denote and adds the digit, keeping all parts but the last below 256 |
| `IntegerConstants.ReadDigits` | gcc-t800/gcc-2.7.2/c-lex.c:1133-1257 | for a string of any length the parts denote the number, and overflow is set exactly when the extra part was needed |
| `IntegerConstants.OutOfRange` | gcc-t800/gcc-2.7.2/c-lex.c:1518-1527 | the warning is given exactly when the number needs more bytes than the type has |
| `IntegerConstants.Words` | gcc-t800/gcc-2.7.2/c-lex.c:1532-1543 | the high and low words hold the number modulo two words |
| `IntegerConstants.AnsiTypeIsFirst` | gcc-t800/gcc-2.7.2/c-lex.c:1576-1598 | the type is the first of the list for the constant's base and suffixes (section 6.1.3.2 of ISO/IEC 9899:1990) that can hold it, or the last |
| `IntegerConstants.LexConstant` | gcc-t800/gcc-2.7.2/c-lex.c:1518-1598 | without a warning the words hold the number itself and the type is the first of its list that can hold it |
| `ConversionSearch.ConversionReasonable` | gcc-t800/gcc-2.7.2/bc-optab.c:409-516 | says yes exactly when no typecode repeats, integer and float are crossed one way only, extensions are of one kind, nothing is widened after a change of signedness, and the sizes never turn |
| `ConversionSearch.NeverTurns` | gcc-t800/gcc-2.7.2/bc-optab.c:487-515 | says yes exactly when the sizes along the chain only fall or only rise |
| `ConversionSearch.ReasonableIs` | gcc-t800/gcc-2.7.2/bc-optab.c:409-516 | a chain may grow exactly as long as the whole of it is sensible: no typecode twice, not both from integer to float and back, not extensions of both kinds, no widening after a change of sign, sizes never turning |
| `ConversionSearch.AdmissibleSensible` | gcc-t800/gcc-2.7.2/bc-optab.c:401-516 | so every chain the table allows is sensible |
| `ConversionRounds.DeduceConversion` | gcc-t800/gcc-2.7.2/bc-optab.c:521-609 | ends on every table; aborts exactly when nothing collected costs less than the number taken for infinity; otherwise the opcodes and the cost are those of rows of the table that lead one after another from source to destination, no-ops left out, and the chain is the first of the cheapest collected, where what each round holds and collects is a function of the table, the source and the destination |
| `ConversionRounds.ChainPerforms` | gcc-t800/gcc-2.7.2/bc-optab.c:594-606 | every chain the table allows is such a sequence of rows, with its opcodes in order and its cost |
| `ConversionRounds.CollectedArrives` | gcc-t800/gcc-2.7.2/bc-optab.c:536-579 | everything collected is a chain the table and conversion_reasonable_p allow from the source to the destination |
| `ConversionRounds.CollectedIff` | gcc-t800/gcc-2.7.2/bc-optab.c:536-579 | something is collected if and only if the destination can be reached |
| `ConversionRounds.SucceedsIffReachable` | gcc-t800/gcc-2.7.2/bc-optab.c:521-609 | where no chain costs as much as infinity, something affordable is collected if and only if the destination can be reached |
| `ConversionRounds.AllCollectedIff` | gcc-t800/gcc-2.7.2/bc-optab.c:551-558 | for a table of different rows every chain from source to destination is collected if and only if in no round two that have arrived are next to each other |
| `ConversionRounds.CheapestIff` | gcc-t800/gcc-2.7.2/bc-optab.c:581-592 | the recipe costs no more than any chain from source to destination if and only if no chain stepped past in some round is cheaper |
| `ConversionRounds.CheapestIfNoneAdjacent` | gcc-t800/gcc-2.7.2/bc-optab.c:581-592 | so it does when in no round two chains that have arrived are next to each other |
| `ConversionRounds.CheaperMissed` | gcc-t800/gcc-2.7.2/bc-optab.c:551-558 | a table of four conversions on which a chain of cost 2 is stepped past and the one collected costs 10 |
| `ConversionSearch.AdmissibleDistinct` | gcc-t800/gcc-2.7.2/bc-optab.c:401-432 | no typecode repeats in a chain, so no chain is longer than there are typecodes |
| `ConversionRounds.BoundedAffordable` | gcc-t800/gcc-2.7.2/bc-optab.c:51-52 | with costs whose bound times the number of typecodes is below 100000 no chain reaches the number taken for infinity |
| `ConversionSearch.AllTakenIff` | gcc-t800/gcc-2.7.2/bc-optab.c:551-558 | the walk of one round, on any list of chains, takes out every one that has arrived if and only if no two of them are next to each other |

## Left out

- CallerSaveTheorem.BlockSimulates: assumes that notes are truthful, that slots exist where calls need them (which `SetupSuffices` provides), and that no result is saved along with a group (which `InsertionRightIff` shows to be needed).
- CallerSaveExact.InsertionRightIff: assumes besides that the notes mark every death, so that a register taken to be live is really waited for, and that groups share no registers, which `SetupSaveAreas` provides; `RightIffNeverStale` does without the latter.
- CallerSavePass.SetupSuffices: that every register live across a call belongs to a pseudo counted as crossing calls depends on register allocation and is assumed.
- Registers a call reads outside its pattern (CALL_INSN_FUNCTION_USAGE), and the HAVE_cc0 and AUTO_INC_DEC variants of the pass.
- Whether slot addresses are valid (`init_caller_save` and the end of `setup_save_areas`) depends on the machine description, which is a parameter here.
- IntegerConversionMeaning.ConvertMeans: that `fold` keeps type, value and side effects of what it is given is assumed for each conversion, not proved; it does not always keep the type (a negation of a negation that differs in sign is replaced by what is inside, `fold-const.c:3560-3561`). MIN and MAX that are narrowed have operands whose order survives, which `MinNarrowingIff` shows to be needed for conversions of two variables; operands that are themselves computed may have fewer values than their types, and then the condition is only sufficient.
- IntegerConversion.Convert: conversions of what `fold` has made go on within one another to a depth that is a parameter, beyond which a NOP_EXPR stands for them; the theorems hold for every depth, and `Settles` says which makes no difference. Where `fold` enlarges a wide part of a tree, as it may the operands of comparisons of bit-fields, more depth may be needed than `Settles` says.
- IntegerConversion.ConvertToInteger: qualified variants of one type are not told apart, and the in-place change of the type of a comparison or logical operation is modelled as a new tree, so sharing of trees is not captured.
- ComparisonShorteningMeaning.ShortenMeans: stripped operands narrower than the nominal type have types that fill their modes, as `signed_type` and its like know no others, and constants carry no conversions. Where conversions are mistaken for an extension the result is shown wrong for any conversions stripped to a variable, against a constant (`ShortenRightIff`) or another variable (`ShortenPairIff`).
- TruthConversion.TruthMeans: arithmetic has the width of its operands, as the front end builds it, and where a rotation count with side effects is evaluated first the order of the operands does not matter, as the language leaves it open.
- Shifts by a negative constant count, which section 6.3.7 of ISO/IEC 9899:1990 leaves undefined; floating-point, complex and pointer operands; structure components in `get_unwidened` and `get_narrower`; warnings.
- ScopeTable.Scopes.PushDecl: `duplicate_decls` is a parameter that says yes or no; what it writes into the old declaration, type checks, warnings, limbo and implicit declarations are not modelled.
- ScopeTable.Scopes.PopLevel: preallocated blocks, tags, labels, nested functions and the reuse of level structures from the free list are not modelled; levels are values in a sequence.
- The error mark in a global slot for undeclared names, and everything under flag_traditional.
- ObjectSegments.Segment.SegConcat: sizes are unbounded numbers, so a segment of four gigabytes or more is not modelled; the freed segment is only said not to be used again.
- The hashing in `sym_lookup`: the symbol table is a map from names.
- The order of the bytes of an integer in memory is that of the host; the model puts the lowest first.
- Output formats of the writer, common blocks and the allocation of segments for text and data.
- PreprocessorEvaluation.Evaluator.Evaluate: starts from parsed expressions; assertions and names are constants; the report of a comma operator is not modelled.
- PreprocessorOverflow.DivideExact: dividing the most negative number by -1 wraps, where a host may trap.
- IntegerConstants.ReadDigits: digits are given as numbers, the characters having been read; the last part is an unbounded number; in the source it may wrap once overflow is set.
- IntegerConstants.AnsiTypeIsFirst: traditional types, imaginary constants and suffix errors are not modelled.
- ConversionRounds.DeduceConversion: the cost is least among the chains collected, and among all only when `CheapestIff` says so, because of the step described above.
- Parsing, diagnostics, printing, file reading and the machine descriptions.
