# Verified models of algorithms in the buildroot tree

Five components of the tree are modelled, each in the form the C code has, and proved correct:

* **Kconfig expressions and symbols** (`package/config`). Expressions are trees over three-valued logic
  (n < m < y). The simplifier (`Expr*.dfy`) is proved sound rule by rule and as a whole, and what it leaves behind is
  proved not to be simplified further; `ExprEqShape.dfy` says what expr_eq decides. Symbol evaluation
  through the VALID cache (`SymbolCalc.dfy`) is proved against a recursive definition without a cache
  (`SymbolTable.dfy`), and `SymbolValue.dfy` says what that comes to; `SymbolSet.dfy` says what setting a value does,
  `SymbolCheck.dfy` that the search for recursive dependencies finds exactly the cycles, `SymbolRank.dfy` which tables
  have none. `Menu.dfy` and `MenuWalk.dfy` follow the pointers of the menu tree through its restructuring and through
  the walk that writes the configuration.
* **The FAT checker** (`package/fsck_msdos/fsck`). `FatCheck.dfy` repairs an arbitrary table into disjoint chains,
  `FatRepair.dfy` says which ones are kept; `FatCodec.dfy` is the round trip between the table and its 12-, 16- and
  28-bit packed forms.
* **The ext4 block allocator and extent builder** (`package/ext4-utils/src`). Bitmaps and counters
  (`BlockGroup.dfy`), the choice of groups (`Allocate*.dfy`), the layout of a new image
  (`ImageLayout.dfy`), extents (`Extent.dfy`) and the number of indirect blocks (`Indirect.dfy`).
* **The sparse image writer and reader**, from the sorted queue (`BackedBlock.dfy`) to the image that comes back
  (`Sparse*.dfy`). `FileImage.dfy` joins this with the allocator: files are allocated, queued, written and expanded,
  and for every byte it is said whether it is found where the extents say.
* **SHA-1** (`Sha1*.dfy`), against FIPS 180-4.

Code that updates state in place is a class or a method with loops, proved against functions; main results are
the lemmas and methods marked so in the files. Where a contract says `P(x) == true` of a predicate, that is `P(x)`,
written so that the verifier does not unfold it there. `dafny verify dfyconfig.toml` checks everything.

## Findings

Where the code does not do what its documentation, or its name, says, the model follows the code.

* The second pass of expr_eliminate_dups is not exact: it can turn an m into n
  (`ExprDupsMod.EliminateDupsLosesMod`). Each time its rule fires the value is kept if and only if it was not m
  (`ExprDupsMod.FiringKeepsUnlessMod`); `ExprDupsMod.ConsistentExact` says for which expressions it never fires.
  The comment at package/config/expr.c:489 says that two inequalities leave `a='m'`; the code builds `a='y'`, which
  is the right one.
* expr_trans_compare treats an m below a NOT as if it were y or n (`ExprCompare.TransCompareWrong`, for one NOT
  `ExprCompare.TransCompareNotExact`). Because of that, menu_finalize can move an entry below a symbol it does not
  depend on: dependency `!T && S=n`, symbol S with visibility `T=n` (`ExprCompare.DetachedEntry`).
* The sweep for recursive dependencies reports every cyclic table but never counts an error, because
  sym_check_deps resets its result at the symbol where the cycle starts; parsing goes on (`SymbolCheck.Sweep`).
  It does not follow direct dependencies, which evaluation does (`SymbolCheck.DirectDepNotWalked`).
* Setting a symbol to the value it has skips the range test and can lower it (`SymbolSet.SameValueLost`, with the
  exact condition in `SymbolSet.SetToSameValue`).
* Of two chains that share clusters checkfat frees both (`FatRepair.LinkedLost`), the second one although its own
  run ends in EOF. A bad cluster on a chain loses its mark (`FatCheck.FatTable.CheckFat`). writefat reads one entry
  too many for every odd number of 12-bit entries, and writes one byte too many for some (`FatCodec.EncodedSize`), for
  instance for 341 entries in one sector (`FatCodec.OneTooManyReached`).
* A request that fails keeps what it has taken; it has no effect if and only if no group was untouched
  (`AllocateSpec.FailureUnchanged`). `ImageLayouts.FailureReached` gives an image and a request that takes all its
  blocks and fails. The program only goes on after that with the option -f.
* The bound on the number of extents in an extent block is `block_size - 1`, not the capacity, because of operator
  precedence (package/ext4-utils/src/extent.c:128-129). The loop behind it leaves the block exactly for the counts
  between the two (`Extents.OverrunExactly`); `Extents.OverrunOnGroups` says for which files that is, by what is
  free before. On an image of 688 MiB with 1024-byte blocks a file of 85 extents does (`ImageLayouts.OverrunReached`).
* The test for a last group too small for its header takes the number of blocks modulo the group size
  (package/ext4-utils/src/ext4_utils.c:137-145) and leaves out the block in front of the first group. With blocks of
  1024 bytes and less it drops a full last group, and keeps one that lacks a single block for its header
  (`ImageLayouts.DropsLastExactly`, `ImageLayouts.FullGroupLost`, `ImageLayouts.FullGroupReached`).
* The extent header of an empty file would announce an extent that is not written (`Extents.EmptyFile`). make_file
  tests for a length above 0 first (package/ext4-utils/src/contents.c:180), so it does not get there.
* blocks_per_tind is the square of blocks_per_dind and wraps to 0 from a block size of 1024 on; files beyond the
  double-indirect block make indirect_blocks_needed divide by zero (`Indirect.NeededFor`, `Indirect.DivisionReached`).
* The order test of for_each_data_block finds overlaps by two blocks or more and no others
  (`BackedBlocks.ReportedOverlaps`). On blocks in order it misfires exactly behind an empty block at block 0
  (`BackedBlocks.ReportedInOrder`); no caller in package/ext4-utils/src queues one, since the lengths queued are
  whole blocks or nonempty parts of regions, and all of them lie behind block 0.
* write_data_file refuses a file that ends exactly at the end of the image (`SparseRoundTrip.FileAtTheEnd`), and a part
  of a file that does not start with a page of the host, since mmap does. With the option -f the program then goes on,
  and there are zeros in the image (`FileImages.FileByteInImage`); without it, it stops there. With blocks of 1024
  bytes and pages of 4096 that is so for every extent that starts at a block of the file that is no multiple of four
  (`ImageLayouts.PageLossReached`).
* simg2img can count a skipped chunk down past 0 (`SparseReader.SkipStepMisses`, with the exact condition in
  `SparseReader.RunsPastExactly`).
* SHA1Update miscounts a piece of 2^29 bytes or more unless the low word overflows (`Sha1Stream.CountExact`,
  `Sha1Stream.MiscountReached`), and copies past its buffer if the bytes waiting and the length add up to 2^32 or
  more (`Sha1Stream.Context.Update`, `Sha1Stream.OverrunReached`).

## Model

| member | source | states |
|---|---|---|
| `Exprs.EliminateYnExact` | package/config/expr.c:236-317 | removing constant operands keeps the value under every assignment |
| `Exprs.EliminateYnRemovesAll` | package/config/expr.c:236-317 | afterwards no constant operand is left; the tree gets smaller exactly when there was one, and is unchanged otherwise |
| `Exprs.TransformExact` | package/config/expr.c:641-776 | expr_transform keeps the value under every assignment |
| `Exprs.Transform` | package/config/expr.c:641-776 | the result has NOT only directly above non-constant symbols and as many leaves as before; it terminates by leaf count, then leading NOTs |
| `Exprs.TransformKeepsNormal` | package/config/expr.c:641-776 | a tree already in that form is left alone |
| `Exprs.TransformIdempotent` | package/config/expr.c:641-776 | expr_transform applied twice is expr_transform applied once |
| `ExprPushes.TransformPushes` | package/config/expr.c:641-776 | transforming again after every step of De Morgan amounts to pushing the negations down to the leaves in one pass; operands keep their order |
| `Exprs.TransBoolKeepsVisibility` | package/config/expr.c:322-346 | on an expression in the form of expr_transform, expr_trans_bool keeps whether the value is n |
| `Exprs.TransBoolReplacesAll` | package/config/expr.c:322-346 | no tristate is compared with n afterwards, and a tree without such comparisons is left alone |
| `ExprEquality.ExprEqSound` | package/config/expr.c:194-234 | expr_eq answering 1 means equal values under every assignment; the mutual recursion with expr_eliminate_eq through copies terminates |
| `ExprEqShapes.ExprEqExact` | package/config/expr.c:194-234 | on expressions without constant operands expr_eq answers 1 if and only if they are equal up to the order and grouping of the operands of equal operators, on all levels |
| `ExprEqShapes.ExprEqReflexive` | package/config/expr.c:194-234 | every expression, with constant operands or without, is equal to itself |
| `ExprEqShapes.ExprEqSwapped` | package/config/expr.c:208-218 | and / or with the operands exchanged are equal |
| `ExprEqShapes.ExprEqRegrouped` | package/config/expr.c:208-218 | so are they with the operands grouped differently |
| `ExprEquality.CancelEqSplits` | package/config/expr.c:135-167 | __expr_eliminate_eq: each original is the cancelled part combined with what is left of it |
| `ExprEquality.CancelEqComplete` | package/config/expr.c:135-167 | no operand of one expression is left that expr_eq finds equal to an operand of the other, constants aside |
| `ExprEqShapes.CancelLive` | package/config/expr.c:135-167 | on chains without constants each side loses exactly the operands, counted, that it has in common with the other |
| `ExprEquality.EliminateEqSplits` | package/config/expr.c:169-189 | the same across both stages of expr_eliminate_eq, one operator and one cancelled part each |
| `ExprEqShapes.EliminateEqExact` | package/config/expr.c:169-189 | what both stages make of two expressions without constant operands: two chains of one operator lose what they have in common, an operand is taken out of a chain, and otherwise nothing changes |
| `ExprEquality.EliminateEqToYes` | package/config/expr.c:169-189 | if the second dependency is reduced to y, the first one is at most the second one under every assignment |
| `ExprEquality.ExtractEqTopSplits` | package/config/expr.c:831-880 | expr_extract_eq_and / _or: each original is the common part combined with its remainder |
| `ExprEqShapes.ExtractLive` | package/config/expr.c:831-880 | on chains without constants the common part gains exactly the operands both have, and each loses them |
| `ExprJoin.JoinOrExact` | package/config/expr.c:351-413 | every rule of expr_join_or keeps the value of the disjunction, booleans and tristates alike |
| `ExprJoin.JoinAndExact` | package/config/expr.c:415-507 | every rule of expr_join_and keeps the value of the conjunction |
| `ExprJoin.JoinOrPairs` | package/config/expr.c:351-413 | which pairs of operands that are not equal expr_join_or joins: comparisons of one tristate with two different constants, and a boolean with its negation |
| `ExprJoin.JoinAndPairs` | package/config/expr.c:415-507 | the same for expr_join_and |
| `ExprSpine.PutPairEval` | package/config/expr.c:509-559 | joining two operands of a spine in place and putting the neutral constant in the other place keeps the value of the whole |
| `ExprDups.JoinedInSecond` | package/config/expr.c:534-556 | the joined operand stands in the place of the second one, the neutral constant in that of the first one, and every other operand stays where it is |
| `ExprDups.Dups1Exact` | package/config/expr.c:509-559 | expr_eliminate_dups1 keeps the value under every assignment, m included, although both cursors walk the tree being rewritten |
| `ExprDups.Dups2OnlyMod` | package/config/expr.c:561-615 | expr_eliminate_dups2 keeps a value that is n or y |
| `ExprDups.ExprEliminateDups` | package/config/expr.c:617-639 | the loop over expression and rewrite counter terminates and computes EliminateDups |
| `ExprDups.EliminateDupsOnlyMod` | package/config/expr.c:617-639 | the simplified expression has the value of the original wherever that is n or y |
| `ExprDupsMod.FiringKeepsUnlessMod` | package/config/expr.c:579-609 | whenever the rule of the second pass fires, the spine becomes the absorbing value, which is what it was if and only if it was not m |
| `ExprDupsMod.ConstantUnlessMod` | package/config/expr.c:617-639 | an expression simplified to y or n keeps its value under an assignment if and only if it was not m there |
| `ExprDupsMod.ConsistentExact` | package/config/expr.c:617-639 | an expression whose conjunctions can all be y, and disjunctions n, keeps its value under every assignment, m included, because the second pass never fires |
| `ExprDupsMod.PlainConsistent` | package/config/expr.c:617-639 | expressions of booleans and tristates without negation and comparison are of that kind |
| `ExprDupsMod.EliminateDupsLosesMod` | package/config/expr.c:579-609 | for any two tristates, (X || Y) && (!X && !Y) is simplified to n, and is m where the larger of them is m |
| `ExprNormal.EliminateDupsNormal` | package/config/expr.c:617-639 | expr_eliminate_dups keeps the form of expr_transform |
| `ExprNormal.VisibilityKept` | package/config/menu.c:294-311 | a visibility handed down through two menus is again in that form, and where the conjunction of its parts is not m it is n if and only if that is |
| `ExprDups.EliminateDupsFixpoint` | package/config/expr.c:617-639 | no rule of either pass applies to the result, and simplifying it again changes nothing |
| `ExprDupFree.NothingToJoin` | package/config/expr.c:509-559 | a first pass that rewrites nothing has tried every pair of different operands below its cursors |
| `ExprDupFree.EliminateDupsDupFree` | package/config/expr.c:617-639 | in the result no two operands of a chain of equal operators can be joined, on any level; in particular none are equal |
| `ExprCancelFree.EliminateDupsCancelFree` | package/config/expr.c:561-639 | on an expression in the form of expr_transform without constant operands, the result has no operand whose negation is contained in the chain around it, on any level |
| `ExprCompare.TransCompareTwoValued` | package/config/expr.c:882-941 | a comparison with y or n is never m |
| `ExprCompare.TransCompareReads` | package/config/expr.c:882-941 | on every expression and assignment it says whether the reading of the expression, symbol by symbol and with NOT as negation, agrees with the constant |
| `ExprCompare.TransCompareWrong` | package/config/expr.c:882-941 | the exact condition under which it is wrong: the expression is m, and read as n by a comparison with n, or as y by one with y |
| `ExprCompare.TransCompareExact` | package/config/expr.c:882-941 | it is right as long as negated operands are n or y |
| `ExprCompare.TransCompareNotExact` | package/config/expr.c:913-914 | below a NOT the comparison is right if and only if the negated operand is not m |
| `ExprCompare.ContainsSymbolSound` | package/config/expr.c:778-800 | an expression that does not contain a symbol does not depend on its value |
| `ExprCompare.ContainsSymbolExactly` | package/config/expr.c:778-800 | an expression contains exactly the symbols it is made of |
| `ExprCompare.DependsSymbolSound` | package/config/expr.c:802-829 | an expression that depends on a symbol is n while the symbol is n |
| `ExprCompare.DependsSymbolExactly` | package/config/expr.c:802-829 | an expression depends on a symbol if and only if an operand of its conjunction is the symbol, or compares it as equal to y or m or as unequal to n |
| `ExprCompare.CancelledTestImplies` | package/config/menu.c:332-338 | the comparison-and-cancel test of menu_finalize implies, under every assignment, that the visibility of the symbol is read as true where that of the entry is |
| `ExprAbsorption.AbsorbsExactly` | package/config/menu.c:325-338 | which entries pass the test, as long as the two conditions have no constant operands: those whose dependency mentions the symbol and either demands it or is a conjunction with all the operands of the visibility of the symbol |
| `ExprCompare.AbsorbedEntryNeedsParent` | package/config/menu.c:325-338 | an accepted entry is visible only where the symbol is visible or not n, unless its dependency is m and read as n |
| `ExprCompare.ComparableNotDetached` | package/config/menu.c:325-338 | no exception is left when no negated operand of the dependency is m |
| `ExprCompare.DetachedEntry` | package/config/menu.c:332-338 | the exception occurs: dependency !T && S=n, symbol S with visibility T=n, at T=m and S=n |
| `SymbolTable.DeclLocal` | package/config/symbol.c:189-227 | what a declaration defines is settled by the symbols it depends on |
| `SymbolTable.Ranked.FixedPoint` | package/config/symbol.c:286-422 | the recursive definition gives every symbol the value its declaration has when all symbols have theirs |
| `SymbolTable.Ranked.FixedPointUnique` | package/config/symbol.c:286-422 | on an acyclic table there is no other such assignment |
| `SymbolTable.Ranked.NeverMod` | package/config/symbol.c:64-75 | a boolean, or a tristate without modules, never has the value m |
| `SymbolValues.ValueExactly` | package/config/symbol.c:286-422 | a tristate is at least t if and only if it is selected to that degree, or the value of the user and a prompt reach it, or, where no value of the user counts, the first visible default does; a boolean is y if and only if that holds for m |
| `SymbolValues.VisibilityExactly` | package/config/symbol.c:189-227 | a symbol is visible to the degree t if and only if one of its prompts is; a boolean is y or n |
| `SymbolValues.SelectedExactly` | package/config/symbol.c:205-226 | the reverse dependency without any symbol that selects is n, the direct dependency without any condition is y; both are brought to y or n where the source does so |
| `SymbolValues.WrittenExactly` | package/config/symbol.c:302-349 | a symbol is not written to the configuration if and only if no prompt and no default is visible and nothing selects it |
| `SymbolValues.PromptsLeast` | package/config/symbol.c:196-199 | the visibility of the prompts is their least upper bound: no prompt is above it, and one attains it unless it is n |
| `SymbolValues.FirstDefaultExactly` | package/config/symbol.c:116-126 | the search finds a default if and only if it is visible and none before it is |
| `SymbolValues.DefaultExactly` | package/config/symbol.c:336-349 | the default is worth what its value and its visibility both reach |
| `SymbolCalc.Symbols.CalcExpr` | package/config/expr.c:943-982 | evaluating an expression through the cache gives its value under the recursive definition, and what it makes VALID is right |
| `SymbolCalc.Symbols.CalcVisibility` | package/config/symbol.c:189-227 | the three fields it assigns hold the visibility, the direct and the reverse dependency of the definition |
| `SymbolCalc.Symbols.CalcDefault` | package/config/symbol.c:116-126 | the default used is the first one that is not invisible |
| `SymbolCalc.Symbols.CalcValue` | package/config/symbol.c:286-422 | terminates on every table, cyclic ones included: a call on a symbol that is not VALID leaves fewer such symbols; on an acyclic table it and all it makes VALID hold their defined values, and VALID ones are not touched |
| `SymbolSet.Calc` | package/config/symbol.c:286-422 | called from outside: every VALID symbol holds its defined value afterwards if that was so before |
| `SymbolSet.ClearAllValid` | package/config/symbol.c:424-431 | VALID is cleared everywhere and nothing else changes |
| `SymbolSet.CalcAll` | package/config/symbol.c:424-431 | recomputing all symbols gives all of them their defined values |
| `SymbolSet.SetTristateValue` | package/config/symbol.c:475-509 | when a value is accepted, and the exact new state |
| `SymbolSet.SetTakesEffect` | package/config/symbol.c:456-473 | where the visibility exceeds what selects the symbol, the range test accepts exactly the values that the symbol is then defined to have |
| `SymbolSet.OthersKeep` | package/config/symbol.c:475-509 | a symbol that does not depend on the one that was set keeps its value |
| `SymbolSet.SetToSameValue` | package/config/symbol.c:479-480 | setting the present value, which skips the range test, keeps it if and only if the symbol is invisible, or the value is within the visibility or equals the reverse dependency |
| `SymbolSet.SameValueLost` | package/config/symbol.c:479-480 | a table on which setting the present value y makes the symbol m |
| `SymbolSet.SetAndCalc` | package/config/symbol.c:475-509 | setting, then evaluating through the cache: the new value for the symbol, the old one for independent symbols |
| `SymbolCheck.DepChecker.PrintRecursive` | package/config/symbol.c:968-994 | the part of the stack from the last occurrence of the symbol on is printed, or the error about a symbol that is not there; if the top of the stack leads back to the symbol, what is printed is a cycle |
| `SymbolCheck.DepChecker.CheckDeps` | package/config/symbol.c:1142-1174 | terminates; the symbol it reports is always on the stack; the symbol it returns is one being searched; while nothing is reported, what it leaves is finished after all it leads to |
| `SymbolCheck.DepChecker.CheckSymDeps` | package/config/symbol.c:1071-1103 | follows the reverse dependency, then visibility and defaults of every property that is no choice or select |
| `SymbolCheck.Sweep` | package/config/zconf.y:524-527 | a recursive dependency is reported if and only if the walked graph has a cycle, every report is a cycle, and yet the error count stays 0 |
| `SymbolCheck.WalkedExactly` | package/config/symbol.c:1071-1103 | what evaluation looks at and the search does not are direct dependencies and the prompts of choices and selects; what the search follows beyond evaluation are conditions of properties that are neither prompts nor defaults |
| `SymbolCheck.SilentSweepRanks` | package/config/symbol.c:1142-1174 | if the sweep is silent and sees all that evaluation looks at, the order of completion ranks the table, so evaluation is well defined; which tables have ranks at all is RankedExactly |
| `SymbolRanks.RankedExactly` | package/config/symbol.c:189-422 | a table has ranks, and evaluation is well defined on it, if and only if no symbol depends on itself, over whatever number of others |
| `SymbolCheck.DirectDepNotWalked` | package/config/symbol.c:1071-1103 | a symbol that only depends on itself directly is cyclic for evaluation but not for the search |
| `Menus.MenuTree.Finalize` | package/config/menu.c:262-405 | entries below and after the parent keep their order, parent pointers name the owner of the list, exactly the entries that end up below have been finalized, once each and in order, and no list hangs below an entry without a prompt |
| `Menus.MenuTree.FinalizeList` | package/config/menu.c:319-320 | the loop over an existing list, which skips entries absorbed on the way |
| `Menus.MenuTree.Absorb` | package/config/menu.c:321-350 | the following entries that pass their test become the list of the symbol, up to the first one that fails; the rest of the list is untouched |
| `Menus.MenuTree.FindAbsorbed` | package/config/menu.c:326-343 | the search finalizes each entry that passes and stops at the first one that fails, whatever the tests answer |
| `Menus.MenuTree.Hoist` | package/config/menu.c:354-405 | the pointers follow Hoisted: lists of entries without a prompt move up behind their entry, also those met on the way |
| `Menus.HoistedKeeps` | package/config/menu.c:395-404 | that keeps the order and leaves no list below an entry without a prompt |
| `Menus.HoistedExactly` | package/config/menu.c:354-405 | the list afterwards is that of all entries reached through entries without a prompt, in order; those with a prompt keep what is below them and the others are left with nothing |
| `MenuWalk.Walk` | package/config/confdata.c:620-653 | the loop without a stack visits every entry once, in preorder |
| `MenuWalk.FinalizeAndWrite` | package/config/confdata.c:620-653 | after finalizing the root, the configuration is written in the order of the entries before it |
| `FatCheck.FatTable.ClearChain` | package/fsck_msdos/fsck/fat.c:420-431 | frees exactly the clusters of the chain that carry its label |
| `FatCheck.FatTable.MarkChain` | package/fsck_msdos/fsck/fat.c:464-477 | relabels all that is reached from the head, clusters of earlier chains included, stops in loops, and records the true length |
| `FatCheck.FatTable.MarkChains` | package/fsck_msdos/fsck/fat.c:459-478 | pass 1 labels every cluster in use and no other, each with the largest of the starts that lead to it, a start being a cluster in use that no smaller start leads to |
| `FatCheck.FatTable.FollowChain` | package/fsck_msdos/fsck/fat.c:490-495 | the walk of pass 2 ends where the label changes or the chain ends, loops included |
| `FatCheck.FatTable.TryClear` | package/fsck_msdos/fsck/fat.c:434-444 | a chain that is not clean is removed without touching another one |
| `FatCheck.FatTable.ExamineChain` | package/fsck_msdos/fsck/fat.c:487-520 | a chain that ends in an EOF mark stays; otherwise its clusters lose their label, and so do those of the chain it runs into, and no others; the table changes exactly if it says so |
| `FatCheck.FatTable.CheckFat` | package/fsck_msdos/fsck/fat.c:450-547 | a mark is freed if and only if the head that pass 1 gives its cluster is not kept, and a head is kept if and only if its run ends in EOF and no smaller head that was still there runs into it; the table ends as a disjoint union of chains with right heads, EOF ends and true lengths; healthy chains are kept; a bad mark survives if and only if nothing leads to it; FSOK if and only if nothing changed |
| `FatRepair.HeadsUnique` | package/fsck_msdos/fsck/fat.c:459-478 | the heads that pass 1 gives are determined by the table |
| `FatRepair.LinkedLost` | package/fsck_msdos/fsck/fat.c:522-541 | of two linked chains neither is kept, if the one that runs into the other was still there |
| `FatChains.LongWalk` | package/fsck_msdos/fsck/fat.c:464-475 | a walk longer than the table has met an end or repeats |
| `FatCodec.CheckClnum` | package/fsck_msdos/fsck/fat.c:138-163 | whatever is read becomes a legal mark |
| `FatCodec.MarkRead` | package/fsck_msdos/fsck/fat.c:138-163 | which marks become free, bad, an entry of the table, an end of chain as it stands, and EOF by truncation |
| `FatCodec.ReadFat` | package/fsck_msdos/fsck/fat.c:286-314 | every entry is the 12-, 16- or 28-bit field at its place after checkclnum; the counters are the numbers of fields that are free or bad as they stand on the disk; modifications are counted |
| `FatCodec.EntriesAreFields` | package/fsck_msdos/fsck/fat.c:288-309 | the packed entries are one number of consecutive fields of 12, 16 or 32 bits, least significant first; entry c is the field that starts at bit c times the width, cut to 28 bits of 32 |
| `FatCodec.LoadIsRaw` | package/fsck_msdos/fsck/fat.c:288-309 | the moving pointer stands at the right entry, inside the buffer |
| `FatCodec.WriteFat` | package/fsck_msdos/fsck/fat.c:555-643 | the buffer is the signature, the packed entries and zeros; NumFree is recounted; a byte behind the buffer is written if and only if an odd number of 12-bit entries fills it |
| `FatCodec.EncodedSize` | package/fsck_msdos/fsck/fat.c:628-640 | the encoding fits the FAT unless an odd number of 12-bit entries fills it to the byte; an entry past the table is read exactly for odd numbers of 12-bit entries |
| `FatCodec.OneTooManyReached` | package/fsck_msdos/fsck/fat.c:628-640 | a table of 341 entries in one sector is such a case |
| `FatCodec.PackedMarks` | package/fsck_msdos/fsck/fat.c:612-641 | each packed field is the entry, cut to its width |
| `FatCodec.WidenPacked` | package/fsck_msdos/fsck/fat.c:138-163 | a legal mark survives cutting and widening |
| `FatCodec.WriteThenRead` | package/fsck_msdos/fsck/fat.c:286-314 | reading what was written gives the same table and the right counters, for every size the boot sector check lets through |
| `BlockGroups.BlockGroup.constructor` | package/ext4-utils/src/allocate.c:254-287 | header and overrun are marked and the rest is one free run, although the overrun is computed in 32 bits for every group |
| `BlockGroups.BlockGroup.ReserveBlocks` | package/ext4-utils/src/allocate.c:179-213 | refused exactly if there are not enough free blocks or one is marked; otherwise exactly those bits are set and the counters follow |
| `BlockGroups.BlockGroup.MarkBits` | package/ext4-utils/src/allocate.c:187-206 | single bits, whole bytes and single bits again mark exactly the range |
| `BlockGroups.BlockGroup.Allocate` | package/ext4-utils/src/allocate.c:312-327 | the first free blocks; the clear bits stay one interval |
| `BlockGroups.BlockGroup.Free` | package/ext4-utils/src/allocate.c:215-223 | the last blocks come back; the clear bits stay one interval |
| `Allocate.InitGroups` | package/ext4-utils/src/allocate.c:289-299 | groups of their own, each as init_bg leaves it |
| `Allocate.Init` | package/ext4-utils/src/allocate.c:289-299 | fresh groups meet what every operation asks for and have handed out nothing |
| `Allocate.Allocator.AllocateBlock` | package/ext4-utils/src/allocate.c:352-363 | the first free block of the first group that has one |
| `Allocate.Allocator.AllocatePartial` | package/ext4-utils/src/allocate.c:365-401 | refines the choice of AllocateSpec.Partial |
| `Allocate.Allocator.AllocateMultiple` | package/ext4-utils/src/allocate.c:403-427 | refines AllocateSpec.Multiple and terminates |
| `Allocate.Allocator.AllocateBlocks` | package/ext4-utils/src/allocate.c:429-460 | refines AllocateSpec.Allocate; list.last points at the first region |
| `AllocatePieces.AllocateInPieces` | package/ext4-utils/src/allocate.c:365-460 | in a granted request every region but the last one is the whole free run of an untouched group, these being the first untouched ones in order; the last region lies in the first group that has room for it |
| `Allocate.Allocator.ReduceByOne` | package/ext4-utils/src/allocate.c:228-252 | one block of a fresh allocation comes back |
| `AllocateSpec.PartialSucceeds` | package/ext4-utils/src/allocate.c:365-401 | a partial allocation succeeds if and only if some group is untouched |
| `AllocateSpec.PartialStuck` | package/ext4-utils/src/allocate.c:365-401 | it makes no progress if and only if the first untouched group has no free block |
| `AllocateSpec.AllocateGranted` | package/ext4-utils/src/allocate.c:403-460 | a granted request gets new blocks outside headers and overruns, pairwise distinct, as many as asked; free blocks fall by that number |
| `AllocateSpec.AllocateSucceeds` | package/ext4-utils/src/allocate.c:429-437 | a request is granted if and only if one group has it or the untouched groups together do |
| `AllocateSpec.MultipleExhausts` | package/ext4-utils/src/allocate.c:403-427 | a failed request has used up every untouched group |
| `AllocateSpec.FailureUnchanged` | package/ext4-utils/src/allocate.c:403-437 | a failed request leaves the groups as they were if and only if none was untouched |
| `AllocateSpec.FailureTakesBlocks` | package/ext4-utils/src/allocate.c:403-427 | on one fresh group a request for one block more than it has fails and takes all of them |
| `ImageLayouts.FailureReached` | package/ext4-utils/src/allocate.c:403-427 | on the image made of 8 MiB with blocks of 4096 bytes a request for 2006 blocks fails and takes all 2005 |
| `AllocateCount.MultipleCount` | package/ext4-utils/src/allocate.c:365-427 | a request over several groups gets one region for every untouched group among the first ones that are just enough for it |
| `AllocateCount.AllocateCounts` | package/ext4-utils/src/allocate.c:365-460 | the number of regions of every request |
| `AllocateSpec.MultipleGrows` | package/ext4-utils/src/allocate.c:403-427 | granted or not, a request only adds to what is handed out |
| `AllocateSpec.ReduceOneGranted` | package/ext4-utils/src/allocate.c:228-252 | right after a request, giving one block back leaves a request for one less |
| `AllocateSpec.StepKeepsInvariant` | package/ext4-utils/src/allocate.c:352-460 | every call keeps the run invariant |
| `AllocateSpec.RunsKeepInvariant` | package/ext4-utils/src/allocate.c:352-460 | after every run of calls, outstanding blocks are distinct data blocks, and free and outstanding blocks add up unless a request failed |
| `Extents.AllocateForFile` | package/ext4-utils/src/extent.c:83-96 | the file gets its blocks; the extra one is given back or set aside |
| `Extents.ReturnOrSetAside` | package/ext4-utils/src/extent.c:90-96 | given back with at most three regions, set aside from the first region with more |
| `Extents.FileRegions` | package/ext4-utils/src/extent.c:83-96 | which blocks the file gets: all allocated ones but the last of the first region, or, with more than three regions, all but the very first one, which becomes the extent block |
| `Extents.WriteExtents` | package/ext4-utils/src/extent.c:144-154 | the loop writes the extents of the regions, file blocks counted on, into the room there is, and says whether that was enough |
| `Extents.InodeAllocateExtents` | package/ext4-utils/src/extent.c:73-173 | the inode, failure, or an extent block that overruns, exactly as OutcomeOf says; the groups stay in order for the next file |
| `Extents.OverrunExactly` | package/ext4-utils/src/extent.c:128-154 | with more than three extents the loop leaves the extent block if and only if 12 + 12 * count exceeds the block size and the count is at most the block size less 1; it stays inside if and only if that fits |
| `Extents.FileCount` | package/ext4-utils/src/extent.c:73-96 | the number of extents of a file that no group can hold |
| `Extents.OverrunOnGroups` | package/ext4-utils/src/extent.c:73-154 | which files overrun, by what the groups have free before: exactly those that no group can hold and whose number of regions lies between the capacity and the bound of the source |
| `Extents.NoOverrunWithout` | package/ext4-utils/src/extent.c:73-154 | no file does that needs more than the untouched groups have |
| `ImageLayouts.OverrunReached` | package/ext4-utils/src/extent.c:128-154 | on the image make_ext4fs lays out for 688 MiB with blocks of 1024 bytes and no journal, after the resize inode and the root directory, a file of 85 extents overruns |
| `Extents.SecondExtent` | package/ext4-utils/src/extent.c:73-154 | where the second extent of a file starts that no group can hold |
| `ImageLayouts.IsPowerOf` | package/ext4-utils/src/ext4_utils.c:45-53 | the loop says whether a number is a power, from the first one on, of the other |
| `ImageLayouts.DropsLastExactly` | package/ext4-utils/src/ext4_utils.c:137-145 | with blocks above 1024 bytes the last group is dropped if and only if its header does not fit; below, the test is wrong exactly for a full last group and for one that lacks a single block |
| `ImageLayouts.FullGroupLost` | package/ext4-utils/src/ext4_utils.c:137-145 | a full last group is then dropped although its blocks stay part of the image, but for one |
| `ImageLayouts.FullGroupReached` | package/ext4-utils/src/ext4_utils.c:111-145 | it happens with 16 MiB and 1 KiB in blocks of 1024 bytes |
| `Extents.TilesMapOnce` | package/ext4-utils/src/extent.c:144-154 | every file block is mapped by exactly one extent |
| `Extents.FileTiled` | package/ext4-utils/src/extent.c:73-173 | if the file gets its inode, the extents fit where they are written and tile the file; their runs and the extent block are new and disjoint; what the free pool lost is what i_blocks counts; lengths are bounded by the group size |
| `Extents.EmptyFile` | package/ext4-utils/src/extent.c:90-103 | an empty file has no extent while its header announces one |
| `FileImages.FilesApart` | package/ext4-utils/src/make_ext4fs.c:159-162 | however many files are made, and also if some cannot be allocated, no block belongs to two of them, as long as none overran its extent block |
| `FileImages.CreateBackingFile` | package/ext4-utils/src/extent.c:55-70 | the regions are queued with the parts of the file, until none is left |
| `FileImages.MakeRegularFile` | package/ext4-utils/src/contents.c:163-190 | the blocks, the inode and what is queued for one file; an empty file gets no blocks |
| `FileImages.BuildDirectory` | package/ext4-utils/src/make_ext4fs.c:159-162 | the same for all files, one after the other |
| `FileImages.BackingDisjoint` | package/ext4-utils/src/extent.c:55-70 | nothing that is queued overlaps |
| `FileImages.FileByteInImage` | package/ext4-utils/src/extent.c:55-154 | every byte of every file that got an inode is in the image where its extents say if the extent starts in the file with a page of the host and the file does not fill it up to the end of the image; otherwise there is a zero, and a write was refused |
| `FileImages.AllShown` | package/ext4-utils/src/output_file.c:391-409 | with whole pages in a block, and a last block of the image that the file does not own, that is so for all its extents |
| `ImageLayouts.PageLossReached` | package/ext4-utils/src/output_file.c:403-409 | on the image of 688 MiB above and a host with pages of 4096 bytes, a file of 10000 KiB loses its second extent |
| `FileImages.BuildImage` | package/ext4-utils/src/ext4_utils.c:77-109 | from allocator and queue through the sparse file and back: the expanded image holds all those files, except for the extents just named; if no write was refused, all of their bytes |
| `Indirect.Reservations.ReserveDindirect` | package/ext4-utils/src/indirect.c:69-84 | one block, and one for every started run of an indirect block |
| `Indirect.Reservations.ReserveTindirect` | package/ext4-utils/src/indirect.c:86-100 | one block, and the double-indirect trees below it |
| `Indirect.Reservations.ReserveAll` | package/ext4-utils/src/indirect.c:277-307 | how many single blocks the loops reserve and what they leave over |
| `Indirect.IndirectBlocksNeeded` | package/ext4-utils/src/indirect.c:309-340 | the formula is the number reserved for exactly the lengths nothing is left of; otherwise it divides by zero or stops with its critical error |
| `Indirect.NeededFor` | package/ext4-utils/src/ext4_utils.c:120-122 | the same for every block size from 4 to 4096: from 1024 on the capacity of a triple-indirect block wraps to 0, and longer files divide by it |
| `Indirect.DivisionReached` | package/ext4-utils/src/indirect.c:309-340 | with blocks of 1024 bytes 65804 blocks are the last ones that are counted, and 65805 divide by zero |
| `BackedBlocks.WalkFrom` | package/ext4-utils/src/backed_block.c:52-61 | starting the search at last_used ends where the search from the head ends |
| `BackedBlocks.Queue.FindPlace` | package/ext4-utils/src/backed_block.c:52-61 | the node found is the one the search from the head finds |
| `BackedBlocks.PlacedExactly` | package/ext4-utils/src/backed_block.c:44-66 | a block comes behind exactly those that start before it, and behind the head of the list if that starts at the same block |
| `BackedBlocks.Queue.QueueDb` | package/ext4-utils/src/backed_block.c:34-67 | the list is that of insertion from the head, and stays sorted |
| `BackedBlocks.Queue.ForEach` | package/ext4-utils/src/backed_block.c:104-120 | every queued block is replayed once, in order of the list; if none is empty, one is reported if and only if two neighbours overlap by two blocks or more |
| `BackedBlocks.QueuedSorted` | package/ext4-utils/src/backed_block.c:34-67 | after any insertions the list is sorted and holds exactly them |
| `BackedBlocks.ReplayAscending` | package/ext4-utils/src/backed_block.c:104-120 | blocks that do not overlap are replayed in ascending order without a report, however they were queued |
| `BackedBlocks.ReportedOverlaps` | package/ext4-utils/src/backed_block.c:110-113 | exactly which lists of blocks that are not empty are reported |
| `BackedBlocks.ReportedInOrder` | package/ext4-utils/src/backed_block.c:110-113 | a list in ascending order is reported if and only if an empty block at block 0 has a successor below 2^32 - 1 |
| `BackedBlocks.OverlapUnreported` | package/ext4-utils/src/backed_block.c:110-113 | two queued blocks that overlap by one block, without a report |
| `BackedBlocks.EmptyBlockReported` | package/ext4-utils/src/backed_block.c:110-113 | an empty block queued for block 0, with a report |
| `SparseCrc.Crc32` | package/ext4-utils/src/sparse_crc32.c:101-110 | the loop computes Crc |
| `SparseCrc.CrcConcat` | package/ext4-utils/src/sparse_crc32.c:101-110 | a check sum computed piece by piece is that of the whole |
| `SparseCrc.LookupIsFeed` | package/ext4-utils/src/sparse_crc32.c:107-108 | a step with the table is eight steps of the division with the bits of the byte, for every register value |
| `SparseCrc.CrcIsDivision` | package/ext4-utils/src/sparse_crc32.c:101-110 | the check sum is that of the division by the polynomial, bit by bit |
| `SparseCrc.TableRow0` | package/ext4-utils/src/sparse_crc32.c:48-91 | entries 0 to 31 of the table are the polynomial divided by eight bits; TableRow1 to TableRow7 say so of the others |
| `SparseWriter.OutputFile.EmitSkipChunk` | package/ext4-utils/src/output_file.c:149-182 | a gap of whole blocks becomes one chunk without payload that stands for zeros; fields and check sum follow; anything else is refused |
| `SparseWriter.OutputFile.WriteChunkRaw` | package/ext4-utils/src/output_file.c:184-249 | accepted if and only if aligned and not before the output pointer; then exactly a chunk for the gap, if there is one, and one chunk with data and padding are appended |
| `SparseWriter.OutputFile.WriteData` | package/ext4-utils/src/output_file.c:362-429 | the same behind the bounds tests of write_data_block and write_data_file and the mapping of the file |
| `SparseWriter.OutputFile.Pad` | package/ext4-utils/src/output_file.c:324-345 | the image is filled up with zeros, by a chunk without payload |
| `SparseWriter.FewChunks` | package/ext4-utils/src/output_file.c:149-249 | where gaps are apart, as they are in every image written, there is at most one chunk more than twice the chunks of data |
| `SparseWriter.OutputFile.Close` | package/ext4-utils/src/output_file.c:251-269 | the header carries the number of chunks and the check sum of the whole image |
| `SparseReader.ProcessRawChunk` | package/ext4-utils/src/simg2img.c:52-72 | the blocks the chunk header announces are copied in pieces, with their check sum; a file that ends before is a read error |
| `SparseReader.ProcessSkipChunk` | package/ext4-utils/src/simg2img.c:75-103 | the output moves on by zeros; the countdown comes to 0 if and only if its step divides the length, and then the check sum is that of the zeros |
| `SparseReader.SkipStepExact` | package/ext4-utils/src/simg2img.c:96-100 | for block sizes that divide the largest seek the step is a block, which divides it |
| `SparseReader.RunsPastExactly` | package/ext4-utils/src/simg2img.c:89-100 | the countdown misses 0 if and only if the last seek is shorter than a block and does not divide the length; never up to 2 GiB |
| `SparseReader.SkipStepMisses` | package/ext4-utils/src/simg2img.c:96-100 | a file of one chunk for which it does |
| `SparseReader.Simg2Img` | package/ext4-utils/src/simg2img.c:137-222 | the program yields Expand for every stream cut into chunks: wrong sizes, unknown types, files that end early and countdowns that miss 0 included |
| `SparseReader.ExpandExactly` | package/ext4-utils/src/simg2img.c:105-225 | exactly which files are expanded: magic and version are right, all chunks are there, of a known type, with the size and payload expected and a countdown that comes to 0, and total and check sum match |
| `SparseReader.ExpandedImage` | package/ext4-utils/src/simg2img.c:195-222 | the image is what the chunks stand for, up to the announced number of blocks, which is a 32-bit sum; it is all of that below 2^32 blocks |
| `SparseReader.ReportedExactly` | package/ext4-utils/src/simg2img.c:166-203 | behind a good header a chunk is named in a message if and only if it is the first one that is not as expected; its type is looked at before its size |
| `SparseRoundTrip.WriteImage` | package/ext4-utils/src/ext4_utils.c:77-109 | chunks and header describe the whole image; for ascending writes it is the accepted ones laid over zeros, the payloads of its chunks are those of the accepted writes, padded, and nothing else, and it is said whether one was refused; gaps are never empty and never next to each other |
| `SparseRoundTrip.WriteAndExpand` | package/ext4-utils/src/simg2img.c:105-225 | what the writer writes the reader accepts, unless a gap makes the countdown miss 0, which needs more than 2 GiB and a block size that does not divide 2^31; for ascending writes the image meant comes back |
| `SparseRoundTrip.OverlayInside` | package/ext4-utils/src/output_file.c:188-193 | every ascending write is found at its place if it is accepted; otherwise what was there stays |
| `SparseRoundTrip.OverlayOutside` | package/ext4-utils/src/output_file.c:188-193 | bytes that no write covers stay as they were |
| `SparseRoundTrip.QueuedBlockInImage` | package/ext4-utils/src/ext4_utils.c:104 | blocks queued in any order without overlap become ascending writes and are found at their places in the image if they are accepted; otherwise there are zeros |
| `SparseRoundTrip.FileAtTheEnd` | package/ext4-utils/src/output_file.c:362-395 | an aligned write that ends at the end of the image is refused from a file, without effect, and accepted from memory |
| `Sha1Transform.SwappedIsBigEndian` | package/ext4-utils/src/sha1.c:39-44 | blk0 on a little-endian machine gives the big-endian word |
| `Sha1Transform.ShortForms` | package/ext4-utils/src/sha1.c:51-54 | the expressions of the round macros are Ch and Maj |
| `Sha1Transform.HeldRecent` | package/ext4-utils/src/sha1.c:45-46 | the circular buffer holds the last 16 words of the 80-word schedule |
| `Sha1Transform.Blk` | package/ext4-utils/src/sha1.c:39-46 | the word used in round i is word i of the schedule of section 6.1.2 of FIPS 180-4 |
| `Sha1Transform.Round` | package/ext4-utils/src/sha1.c:51-55 | a macro with renamed variables is one step of section 6.1.2 |
| `Sha1Transform.FiveRounds` | package/ext4-utils/src/sha1.c:161-164 | five macros are five steps, and the variables are back in place |
| `Sha1Transform.Transform` | package/ext4-utils/src/sha1.c:124-190 | the state becomes the next hash value |
| `Sha1Stream.CountExact` | package/ext4-utils/src/sha1.c:225-227 | the two-word bit count is right if and only if the piece is below 2^29 bytes or the low word overflows |
| `Sha1Stream.Context.Update` | package/ext4-utils/src/sha1.c:215-239 | the context stands for the message with the piece appended, buffering included, for pieces of any 32-bit length; it leaves the buffer if and only if what is waiting and the length add up to 2^32 or more |
| `Sha1Stream.MiscountReached` | package/ext4-utils/src/sha1.c:225-227 | 2^29 bytes in one piece are counted as none |
| `Sha1Stream.OverrunReached` | package/ext4-utils/src/sha1.c:229-230 | 63 bytes and then 2^32 - 1 bytes leave the buffer |
| `Sha1Stream.Context.PadWithZeros` | package/ext4-utils/src/sha1.c:258-259 | zero bytes up to the length field, as section 5.1.1 of FIPS 180-4 has them |
| `Sha1Stream.Context.Final` | package/ext4-utils/src/sha1.c:245-269 | the digest of the message padded with the length as counted; for a right count and less than 2^61 bytes that is SHA-1 |
| `Sha1Stream.Hash` | package/ext4-utils/src/sha1.c:196-269 | however the message is split into pieces, the digest is that of the message with the length as counted; it is the one FIPS 180-4 defines if the count is right, as with pieces below 2^29 bytes |

## Left out

Kconfig:
- Expression trees rewritten in place are functions that return the new tree; the two cursors of the duplicate
  passes are paths into one tree, so that a rewrite through one is seen through the other. Sharing of nodes between
  properties is not modelled.
- ExprDupsMod.ConsistentExact: not conversely. An expression with a conjunction that can never be y may still keep
  its value: the rule of the second pass compares shapes and may not see it, or the m that is lost is absorbed
  further up. For one firing, and for results y and n, the conditions are exact (ExprDupsMod.FiringKeepsUnlessMod,
  ExprDupsMod.ConstantUnlessMod).
- ExprEqShapes.ExprEqExact: with constant operands y or n only soundness and reflexivity are stated; there, operands
  that are equal in value may or may not be cancelled.
- ExprCancelFree.EliminateDupsCancelFree: not for expressions with constant operands, which the rules of the second
  pass do not see as such.
- ExprAbsorption.AbsorbsExactly: the same; for them the test is sound (ExprCompare.CancelledTestImplies).
- Choices and choice values, int, hex and string values, ranges, environment symbols and the AUTO flag: the properties
  are those of boolean and tristate symbols.
- SymbolCalc.Symbols.CalcVisibility: the visibility of choice values and the SYMBOL_CHANGED flags it sets are not
  modelled.
- SymbolCalc.Symbols.CalcValue: choices, int, hex and string symbols and the update of modules_val are not modelled.
- SymbolSet.ClearAllValid: the recalculation of the modules symbol at its end and the change count are not modelled.
- SymbolSet.SetTristateValue: the branch for choice values is not modelled.
- SymbolCheck.DepChecker.PrintRecursive: the branch for choice values and the texts of the messages are not modelled.
- SymbolCheck.SilentSweepRanks: the condition that the sweep sees all that evaluation looks at is sufficient;
  SymbolRanks.RankedExactly is exact.
- SymbolCheck.DepChecker.CheckDeps: the branches for choices and choice values are not modelled.
- SymbolCheck.DepChecker.CheckSymDeps: the test whether a default belongs to a choice, and the fields of the stack
  that are only used in messages, are not modelled.
- The modules symbol is a parameter of the table; that its own evaluation can change it on the way is not modelled.
- SYMBOL_CHANGED and the menu flags set with it, and the warning about unmet dependencies with
  expr_simplify_unmet_dep.
- Symbols and menu entries are numbered, and their fields are kept in sequences by number instead of in one record
  each.
- Menus.MenuTree.Finalize: the outcomes of the dependency tests are an arbitrary function, so the result holds
  whatever they are; the copying of dependencies into properties (package/config/menu.c:262-320) is a function of
  its own, ExprNormal.Visibility, and the reverse dependencies built from it are not modelled. What an accepted test
  means is ExprCompare.AbsorbedEntryNeedsParent.
- menu_is_visible and the text written for an entry: MenuWalk.Walk gives the order of visits.

FAT:
- Questions are answered yes; the branch that examines chains again after a refusal, comparefat, checklost, the
  directories, and the reading and comparing of the signature bytes.
- FatCodec.WriteFat: the byte that is written behind the buffer is the last element of an array that is one byte
  longer; what it belongs to is not modelled.
- One array per field of struct fatEntry. The memory behind the table that an odd number of 12-bit entries reads is
  a parameter.

ext4:
- Region lists are sequences: prev and next pointers, iter and partial_iter are not modelled beyond an index, and
  advance_list_ptr (which never stores the region it reaches) only as the number of blocks passed.
- Allocate.Allocator.ReduceByOne: only right after an allocation and by one block, as extent.c uses it.
- AllocateSpec.RunsKeepInvariant: untouched groups have at least two free blocks; with none, ext4_allocate_partial
  makes no progress (AllocateSpec.PartialStuck).
- Block numbers, lengths and i_blocks are unbounded; the 32-bit overrun of init_bg, the sums of
  indirect_blocks_needed and the capacities are computed in 32 bits.
- Attaching indirect blocks to the inode, inode allocation, directories and the journal.
- Extents.WriteExtents: where the source writes on behind the extent block, the model stops; what the memory behind
  it holds is not modelled.
- FileImages.BuildDirectory: subdirectories, links and the blocks of the directory itself are not modelled.
- FileImages.FilesApart: the files are those of FilesMade, which goes on after an extent block has overrun, while the
  memory of the program is then undefined.
- error() ends the program unless it was started with -f; the model goes on after an error, as it then does, and
  reports it. A run without -f is the part of it up to the first error.
- FileImages.FileByteInImage: opening and mapping a file fail for no other reason than the offset.
- ImageLayouts.LayoutOf: the numbers are unbounded, the image has a block behind the first data block, and an
  image without a group does not lose one. The journal is left out.
- FileImages.BuildImage: only the contents of regular files are queued, not bitmaps, inode tables, directories and
  extent blocks; what happens after an extent block has overrun is not promised.
- Indirect.NeededFor: block sizes are powers of two from 4 to 4096.

Queue and sparse images:
- Files, gzip, seeks and mapped memory: a sparse file is a header and a sequence of chunks with their payloads, and
  the header fields the reader skips are missing. The static header of the writer is a value.
- Rounding up by a mask is arithmetic rounding, which is the same for powers of two.
- BackedBlocks.Queue.ForEach: lengths are unbounded, while the queue keeps them in 32 bits and the writer passes them
  on as int; lengths of 2^31 and more are not covered by the source.
- SparseWriter.OutputFile.WriteChunkRaw: the same; the field for the size of a chunk is computed in 32 bits.
- BackedBlocks.EmptyBlockReported: an input that no caller in the repository queues; it shows that the condition of
  BackedBlocks.ReportedInOrder can be met.
- SparseReader.ProcessSkipChunk: where the unsigned counter would wrap round, the model stops and says so; the
  2^64 / step turns that follow are not modelled.
- SparseReader.Simg2Img: the stream comes cut into chunks whose payloads are as long as their headers say, except
  that it may end within the last one.
- SparseRoundTrip.WriteAndExpand: the super block and group descriptors that write_ext4_image writes before the
  queue are writes like any other.

SHA-1:
- The 80 macro calls are a loop over groups of five; the workaround for old compilers, which computes the same, and
  the wiping of variables are left out.
