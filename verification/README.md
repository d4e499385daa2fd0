# Verified models of the ucore and riscv-pk sources

Dafny models of the parts of the repository whose correctness is not visible
from one function at a time, with proofs for all inputs, all runs or all
reachable states. `dafny verify dfyconfig.toml` checks everything.

## What is modelled

- **The configuration language** (`ucore/package/config`). Dependency
  expressions over n, m and y with their rewriters (`Normalize`, `ExprEq`,
  `Joins`, `Spine`, `Dups`, `DupsComplete`, `DupsLoss`, `DupsNormal`, `Compare`,
  `NestLoss`), the printer and the expression grammar (`Syntax`), the value of
  symbols as plain recursion (`Symbols`) and as the cached evaluation the code
  does (`Engine`), the depth-first check for recursive dependencies (`CheckDeps`,
  `Configure`), and the menus: how the parser links them (`MenuBuild`), menu_finalize as a
  function on trees (`MenuTree`, `MenuRules`) and in place on the links
  (`MenuPool`), and the walk without a stack (`MenuWalk`).
- **The allocator** (`malloc.c`): the memory as a list of blocks (`Arena`), the
  circular free list threaded through it (`FreeRing`, `FreeStep`, `TakeStep`,
  `Places`, `ArenaFine`) and the search loops with their growth (`Malloc`,
  `MallocLoss`), in units of one 64-byte header.
- **The device tree scanner** (`fdt.c`): words and strings (`FdtWords`), tokens,
  trees and events (`FdtTree`), the scan in place (`FdtScan`) and filter_compat
  (`FdtFilter`). The format is that of section 5.4 of the Devicetree
  Specification.
- **The image builder** (`mksfs.c`): block index, block numbers, bitmap, and what
  a reader finds on the finished disk (`SfsIndex`, `SfsBitmap`, `SfsStore`,
  `Sfs`), for every block size.
- **Protocols**: file descriptors (`FileTable`), the pipe in shared memory
  (`Spipe`) and the placement of module sections in 32-bit words (`Bits`,
  `Layout`).

Rewriters that follow `struct expr **` are functions on trees with paths in the
place of the pointers; loops, linked structures and in-place updates are methods
on classes, sequences and arrays, proved against such functions. A boolean
symbol is never m in a well-typed environment, bare symbols of an expression are
boolean, tristate or one of the constants, and comparison is on the string
values. `Wrappers` holds the type of optional values.

## What the proofs show about the code

- The second pass of expr_eliminate_dups is exact for every value but m:
  `Dups.ContradictionExact` is the exact condition for one step and
  `DupsLoss.EliminateDupsLosesM` an input on which an m is lost.
- expr_trans_compare flips the relation below a NOT. It is right for every value
  but m, and for m exactly when the expression reads as a bare m would
  (`Compare.TransCompareExact`, `Compare.TransCompareMisled`). So menu_finalize can
  nest an entry below one that is neither set nor visible and yet show it, but
  only while the entry is m (`Compare.NestsExact`, `NestLoss.NestsMisled`).
- expr_trans_bool changes no visibility of a boolean symbol as long as it is
  given a normal form (`Compare.TransBoolPromoted`, `Compare.TransBoolNeedsNormal`),
  and menu_finalize always gives it one (`MenuRules.FinalizedNormal`).
- filter_compat uses 999 both as "no mark" and as a depth: a node at depth 999
  is removed whether it matches or not. `FdtFilter.LeftIsPruned` gives the exact
  condition under which the result is the intended one, and
  `FdtFilter.FilterLosesDeepest` a tree that is not left as it should be.
- alloc_cache_block files every table in the bucket of number 0, so the search
  in update_cache would miss most of them. `Sfs.Image.AppendBlock` shows that
  it is never needed.
- add_entry writes as many bytes of an entry as a name has room for, and the
  entry begins with the inode number: of a name of 255 characters, which is
  accepted, the last three do not reach the disk (`SfsStore.EntryExact`).
- fs_closeall starts its counter at 3 and its slot at 2: it closes slot 2 and
  leaves the last slot open (`FileTable.FileMap.FsCloseAll`).
- dup_fs copies a closed slot with count 0, which no call frees and on which
  fs_destroy fails, and it fails an assertion on a reserved slot
  (`FileTable.FileMap.DupFs`, `FileTable.DupOfClosed`, `FileTable.DupOfInit`).
- malloc asks for a second growth when it comes back to its free pointer before it
  comes to the region just obtained. If the kernel refuses then, NULL is returned
  although that region fits. `Malloc.Heap.Search` gives the exact condition and
  `MallocLoss.GivesUp` a heap.
- layout_sections marks init offsets with the top bit and uses all ones for "no
  offset": the last offset below the mark would be taken for none
  (`Layout.MarkedCode`).

## Model

| member | source | states |
|---|---|---|
| `Normalize.EliminateYN` | ucore/package/config/expr.c:236-317 | no constant y or n is left unless it is the whole result; the tree shrinks exactly when there was one |
| `Normalize.EliminateYNExact` | ucore/package/config/expr.c:236-317 | removing constants keeps the value in every environment |
| `Normalize.TransformExact` | ucore/package/config/expr.c:641-776 | expr_transform keeps the value of every expression in every well-typed environment |
| `Normalize.TransformCmpExact` | ucore/package/config/expr.c:658-702 | a boolean compared with y, m or n and the replacement of the comparison have one value |
| `Normalize.TransformNormal` | ucore/package/config/expr.c:641-776 | the result is a normal form: negation only on symbols that are not constant, no boolean compared with a constant |
| `Normalize.TransformIdempotent` | ucore/package/config/expr.c:641-776 | a second transformation changes nothing, and the fixed points are exactly the normal forms |
| `ExprEq.CancelSound` | ucore/package/config/expr.c:135-192 | cancelling equal operands removes one common value from both sides |
| `ExprEq.EqSound` | ucore/package/config/expr.c:194-234 | expr_eq answers yes only for expressions of equal value in every environment, through its mutual recursion with cancellation |
| `ExprEq.EliminateEqImplies` | ucore/package/config/expr.c:169-192 | when cancellation leaves y of the second expression, the first implies it |
| `ExprEq.ExtractEqExact` | ucore/package/config/expr.c:831-880 | the common part combined with each remainder has the value of the original |
| `ExprEq.ExtractMaximal` | ucore/package/config/expr.c:853-880 | no operand of one remainder equals an operand of the other |
| `Joins.JoinOrExact` | ucore/package/config/expr.c:351-413 | a successful join has the value of the disjunction |
| `Joins.JoinAndExact` | ucore/package/config/expr.c:415-507 | a successful join has the value of the conjunction |
| `Dups.Dups1` | ucore/package/config/expr.c:509-559 | the pass keeps the skeleton, counts nothing only if it changed nothing, and leaves a constant behind otherwise |
| `Dups.Dups1Exact` | ucore/package/config/expr.c:509-559 | the first pass keeps the value in every well-typed environment |
| `Dups.ContradictionExact` | ucore/package/config/expr.c:580-606 | blanking a contradicted operand keeps the value if and only if the value is not m |
| `Dups.Dups2Refines` | ucore/package/config/expr.c:561-615 | the second pass keeps every value but m |
| `Dups.EliminateDups` | ucore/package/config/expr.c:617-639 | the loop ends, in a tree that neither pass changes and that is not larger |
| `Dups.EliminateDupsRefines` | ucore/package/config/expr.c:617-639 | the whole loop keeps every value but m in every well-typed environment |
| `Dups.RoundRefines` | ucore/package/config/expr.c:624-636 | one turn of the loop keeps every value but m; when it counts a change, folding the constants leaves a smaller expression of the same value |
| `Dups.EliminateDupsLoop` | ucore/package/config/expr.c:617-639 | the loop computes the fixpoint function |
| `DupsComplete.EliminateDupsComplete` | ucore/package/config/expr.c:509-639 | in the result no two operands can be joined and none contradicts another, at every place of the spine |
| `DupsLoss.EliminateDupsMFree` | ucore/package/config/expr.c:617-639 | the value is kept wherever no operand is m |
| `DupsLoss.EliminateDupsLosesM` | ucore/package/config/expr.c:561-615 | with F = m and G = n, the conjunction of (F or G) and (not F and not G) has value m and becomes n |
| `Compare.TransBoolBlurs` | ucore/package/config/expr.c:322-346 | expr_trans_bool may only blur a value to m |
| `Compare.TransBoolPromoted` | ucore/package/config/expr.c:322-346 | on a normal form nothing changes once m counts as y, which is what a boolean symbol makes of its visibility |
| `Compare.TransBoolNeedsNormal` | ucore/package/config/expr.c:333-340 | outside the normal form a visibility can change |
| `Compare.TransCompareReads` | ucore/package/config/expr.c:882-941 | in every environment the comparison with y or n is that of the expression read with every bare m as y (when asked about n) or as n (when asked about y) |
| `Compare.ReadRefines` | ucore/package/config/expr.c:882-941 | that reading changes no value but m |
| `Compare.TransCompareExact` | ucore/package/config/expr.c:882-941 | the comparison is right for every value but m, and for m if and only if the expression reads as a bare m would, as it does when no negated operand is m |
| `Compare.TransCompareNot` | ucore/package/config/expr.c:913-914 | a negation is compared correctly if and only if its operand is not m |
| `Compare.TransCompareMisled` | ucore/package/config/expr.c:913-914 | with F = m, not F is m, yet the comparison says that it equals n and that it equals y |
| `Compare.TransCompareMod` | ucore/package/config/expr.c:915-933 | compared with m, symbols and comparisons are answered correctly and their negations always wrongly |
| `Compare.VisibleExact` | ucore/package/config/menu.c:282-293 | the simplified condition that menu_finalize compares is the dependency as it reads; it says whether the dependency is not n unless that is an m that reads as n |
| `Compare.DependsSymbolImplies` | ucore/package/config/expr.c:802-829 | a dependency on a symbol holds only while the symbol is set |
| `Compare.NestsReads` | ucore/package/config/menu.c:282-301 | in every environment an entry nested below its predecessor reads as visible only while that one is set or reads as visible |
| `Compare.NestsExact` | ucore/package/config/menu.c:282-301 | an entry nested below its predecessor is y only while that one is set or visible; it is visible only then, unless it is an m that reads as n, so below a hidden predecessor that is not set it is visible exactly when it is m |
| `NestLoss.NestsMisled` | ucore/package/config/menu.c:282-301 | with F = n and G = m, an entry with dependency (not G and not F) is nested below the entry of F with prompt condition G=n, and is visible while F is neither set nor visible |
| `DupsNormal.EliminateDupsNormal` | ucore/package/config/expr.c:509-639 | removing duplicates keeps normal forms |
| `Syntax.ParseLoop` | ucore/package/config/zconf.tab.c:1785-1818 | the shift-reduce loop computes the parser function |
| `Syntax.ReassocVal` | ucore/package/config/zconf.tab.c:1785-1818 | grouping chains to the left keeps the value |
| `Syntax.ParsePrint` | ucore/package/config/expr.c:984-1080 | parsing what expr_print prints gives the expression back up to the grouping of chains, with the same value everywhere, and exactly it if and only if its chains are grouped to the left |
| `Symbols.ComputeAgrees` | ucore/package/config/symbol.c:262-372 | the value, visibility and reverse dependency of a symbol depend on nothing but the symbols the check follows |
| `Symbols.EvalSolves` | ucore/package/config/symbol.c:262-372 | without cycles plain recursive evaluation gives every symbol the value its definition prescribes |
| `Symbols.SolutionUnique` | ucore/package/config/symbol.c:262-372 | and no other assignment does |
| `Symbols.EvalWellTyped` | ucore/package/config/symbol.c:300-325 | in every configuration a boolean is never m |
| `Symbols.EvalBounds` | ucore/package/config/symbol.c:300-325 | a visible or selected symbol lies between its reverse dependency and the larger of visibility and reverse dependency |
| `Symbols.UserChangeFrame` | ucore/package/config/symbol.c:425-459 | a user value is not seen by any other symbol of rank up to that of its symbol |
| `Symbols.UserValueTakesEffect` | ucore/package/config/symbol.c:406-423 | a user value becomes the value of its symbol if and only if it is the present value or within range |
| `Symbols.SameUserValue` | ucore/package/config/symbol.c:425-459 | storing the present value as user value changes no symbol |
| `Engine.Symtab.CalcExpr` | ucore/package/config/expr.c:943-982 | the value of the expression, whatever the symbols are that have not been calculated |
| `Engine.CacheIsEval` | ucore/package/config/symbol.c:262-372 | what is cached is what plain recursive evaluation gives |
| `Engine.Symtab.CalcVisibility` | ucore/package/config/symbol.c:193-221 | visibility and reverse dependency are those prescribed |
| `Engine.Symtab.GetDefault` | ucore/package/config/symbol.c:120-130 | the first default whose condition holds |
| `Engine.Symtab.CalcTri` | ucore/package/config/symbol.c:300-325 | the tristate that the definition prescribes |
| `Engine.Symtab.CalcText` | ucore/package/config/symbol.c:326-345 | the text that the definition prescribes |
| `Engine.Symtab.CalcValue` | ucore/package/config/symbol.c:262-372 | the symbol is valid, its fields follow from those of valid symbols alone, and nothing that was valid changes |
| `Engine.Symtab.constructor` | ucore/package/config/symbol.c:44-75 | at first only the constants are valid |
| `Engine.Symtab.Ask` | ucore/package/config/symbol.c:262-372 | in whatever order and however often symbols are asked for, every answer is that of uncached recursive evaluation |
| `Engine.Symtab.CachedBounds` | ucore/package/config/symbol.c:300-325 | in every reachable state a boolean is not m and a visible or selected symbol is within its bounds |
| `Engine.Symtab.ClearAllValid` | ucore/package/config/symbol.c:374-384 | after it the cache is consistent again, whatever changed, and only what the symbol for modules needs is valid |
| `Engine.Symtab.SetTristate` | ucore/package/config/symbol.c:425-459 | the exact test on the fields as they are, valid or not; on a valid symbol a value is accepted if and only if it takes effect; the cache stays consistent in every case |
| `Engine.Symtab.StoreUser` | ucore/package/config/symbol.c:454-458 | flags are cleared only on a change, which is enough, also for a symbol that is not valid |
| `CheckDeps.Checker.CheckExpr` | ucore/package/config/symbol.c:759-787 | without a report all symbols of the expression are finished, each after its dependencies |
| `CheckDeps.Checker.Check` | ucore/package/config/symbol.c:789-828 | without a report the symbol is finished after all it depends on |
| `CheckDeps.CloseCycle` | ucore/package/config/symbol.c:789-800 | coming back to a symbol under check closes a cycle |
| `CheckDeps.CheckEach` | ucore/package/config/symbol.c:789-828 | the check of a list of symbols leaves no symbol under check |
| `CheckDeps.CheckAll` | ucore/package/config/symbol.c:759-828 | a recursive dependency is reported if and only if there is a cycle; otherwise the order of completion ranks every symbol above its dependencies |
| `CheckDeps.RankedNoCycle` | ucore/package/config/symbol.c:759-828 | a graph with such a ranking has no cycle |
| `Configure.CheckThenAsk` | ucore/package/config/zconf.tab.c:2133-2136 | after a check without a report every answer is the value of the one solution |
| `MenuBuild.Builder.constructor` | ucore/package/config/menu.c:38-42 | the root alone is a well-linked tree |
| `MenuBuild.Builder.AddEntry` | ucore/package/config/menu.c:44-58 | one more entry at the end of the innermost open menu |
| `MenuBuild.Builder.AddMenu` | ucore/package/config/menu.c:64-69 | the entry just added becomes the innermost open menu |
| `MenuBuild.Builder.EndMenu` | ucore/package/config/menu.c:71-75 | the open menu becomes an entry with all its children |
| `MenuBuild.ReadAll` | ucore/package/config/menu.c:38-75 | reading a configuration gives its tree, well linked, in the order of the files |
| `MenuRules.InheritRefines` | ucore/package/config/menu.c:256-268 | an inherited condition is the conjunction, up to what simplification makes of m |
| `MenuRules.WithOuterShown` | ucore/package/config/menu.c:254-270 | an entry is shown only while its menu and its own conditions are not n, and whenever all of them are y |
| `MenuRules.ClausesShown` | ucore/package/config/menu.c:260-270 | the same for each default and select of the entry: its condition is not n only if those of the menu, the entry and its own are, and not n when all are y |
| `MenuRules.FinalizedShown` | ucore/package/config/menu.c:228-347 | in the whole finalized tree no entry is shown while the root is not |
| `MenuRules.FinalizedSelects` | ucore/package/config/menu.c:270-275 | the reverse dependency of a symbol reaches a value if and only if it did before or some entry of the finalized tree selects the symbol to it |
| `MenuRules.FinalizedNormal` | ucore/package/config/menu.c:254-278 | every condition in the finalized tree is in normal form, the form in which the step from comparisons to symbols changes no visibility |
| `MenuRules.FinalizedOrder` | ucore/package/config/menu.c:228-347 | for the conditions and tests of the code: symbols, prompts, default values and select targets stay in the order of the files |
| `MenuTree.FinalizeAllHave` | ucore/package/config/menu.c:228-347 | whatever a menu passes on, every entry below the root has in the end |
| `MenuTree.FinalizeTags` | ucore/package/config/menu.c:228-347 | no entry is lost, doubled or moved: whatever is said of entries that menus do not change is said in the same order before and after |
| `MenuTree.FinalizePrompted` | ucore/package/config/menu.c:313-346 | below the result no entry with children lacks a prompt |
| `MenuTree.FinalizeSome` | ucore/package/config/menu.c:254-312 | whatever can be said of an entry: one below the result is so if and only if one is that was passed something down, or one that follows and was taken in |
| `MenuPool.Menus.PassDownList` | ucore/package/config/menu.c:254-278 | every entry of the list is rewritten in place and nothing else changes |
| `MenuPool.Menus.AbsorbList` | ucore/package/config/menu.c:281-312 | the following entries that nest become the children, with their parent set |
| `MenuPool.Menus.SpliceList` | ucore/package/config/menu.c:313-346 | children of entries without a prompt move up behind them, with their parent set |
| `MenuPool.Menus.FinalizeMenu` | ucore/package/config/menu.c:228-347 | in place and recursively: the menus keep their preorder, all next, list and parent links are those of the finalized tree, and nothing outside changes |
| `MenuWalk.UpEnds` | ucore/package/config/confdata.c:517-524 | a list ends where the subtree of its parent ends |
| `MenuWalk.Next` | ucore/package/config/confdata.c:512-525 | the next menu of the walk is the next one in preorder |
| `MenuWalk.Walk` | ucore/package/config/confdata.c:447-525 | every menu below the root is visited once, in order |
| `MenuWalk.FinalizeAndWalk` | ucore/package/config/confdata.c:447-525 | after menu_finalize the walk still visits every entry once, in the old order, and each is what it was in all that menus do not pass down |
| `MenuWalk.ReadAndWrite` | ucore/package/config/confdata.c:447-525 | from reading to writing: every entry of the files once, in their order |
| `Arena.ReleaseKeeps` | ucore/src/libs-user-ucore/malloc.c:122-147 | joining a released block keeps the order, leaves no two adjacent free blocks of one type, and loses no unit |
| `Arena.ReleaseUsed` | ucore/src/libs-user-ucore/malloc.c:122-147 | releasing a block touches no other block in use |
| `Arena.TakeKeeps` | ucore/src/libs-user-ucore/malloc.c:96-109 | splitting a block keeps order, joins and units, and gives exactly the units asked for |
| `Arena.TakeUsed` | ucore/src/libs-user-ucore/malloc.c:96-109 | taking a block adds it to those in use and touches no other |
| `Arena.ReleaseAnchored` | ucore/src/libs-user-ucore/malloc.c:132-146 | the anchor is never joined with a neighbour |
| `FreeStep.FreeAfter` | ucore/src/libs-user-ucore/malloc.c:132-146 | the pointer updates, behind a free block, make the ring of the released arena |
| `FreeStep.FreeFront` | ucore/src/libs-user-ucore/malloc.c:132-146 | the pointer updates, in front of all free blocks, make the ring of the released arena |
| `TakeStep.TakeAfter` | ucore/src/libs-user-ucore/malloc.c:97-107 | unlinking or splitting makes the ring of the arena without the block |
| `Places.Successor` | ucore/src/libs-user-ucore/malloc.c:126-130 | a free block points to the next one by address, the last one to the first |
| `Malloc.Heap.FindPlace` | ucore/src/libs-user-ucore/malloc.c:126-130 | the search ends, at the free block after which the block belongs |
| `Malloc.Heap.Free` | ucore/src/libs-user-ucore/malloc.c:122-147 | the ring stays consistent, the block leaves the blocks in use, nothing else does |
| `Malloc.Heap.EnterRegion` | ucore/src/libs-user-ucore/malloc.c:57-59 | the new region overlaps nothing known |
| `Malloc.Heap.Grow` | ucore/src/libs-user-ucore/malloc.c:45-77 | after a growth the request fits at the place found or behind it; a free block stays free and keeps a fitting successor |
| `Malloc.Heap.Carve` | ucore/src/libs-user-ucore/malloc.c:97-108 | the front of the fitting block leaves the ring |
| `Malloc.Heap.Search` | ucore/src/libs-user-ucore/malloc.c:96-119 | the loop finds a free block that fits whenever there is one, and asks the kernel only when there is none; after one growth it succeeds if and only if the region was joined with the free block below it or went behind the block where the search began |
| `Malloc.Heap.Malloc` | ucore/src/libs-user-ucore/malloc.c:79-120 | the search ends after at most two growths; the block has exactly the units and the type asked for and is none in use before; no growth takes place if and only if a free block fits; NULL is returned only when the kernel refuses, and then something fits exactly after one growth |
| `MallocLoss.GivesUp` | ucore/src/libs-user-ucore/malloc.c:110-118 | a consistent heap on which one growth is granted, a second one is asked for and refused, and the search fails with a fitting block in the ring |
| `Malloc.Run` | ucore/src/libs-user-ucore/malloc.c:79-147 | in every run the blocks held are the blocks in use, pairwise disjoint, and free plus used units are the units obtained |
| `FdtWords.StrLen` | riscv-pk/machine/fdt.c:67-69 | the length of a name ends in its last word |
| `FdtWords.StringListIndex` | riscv-pk/machine/fdt.c:127-138 | the first place of the string in the list, or -1 if and only if it is not there |
| `FdtWords.StringsPacked` | riscv-pk/machine/fdt.c:127-138 | a packed list of strings is read back as it was |
| `FdtTree.ScanEvents` | riscv-pk/machine/fdt.c:28-85 | callbacks fire in the order of the tree: open, properties, done, children, close, with done once per node |
| `FdtTree.EventsTell` | riscv-pk/machine/fdt.c:28-85 | two forests with the same events are the same forest: a scan tells all trees apart |
| `FdtTree.ScanEdits` | riscv-pk/machine/fdt.c:67-73 | a scan leaves well-formed tokens, with some nodes turned into as many NOPs |
| `FdtTree.EditedWords` | riscv-pk/machine/fdt.c:70-71 | the length stays and every word stays or becomes a NOP |
| `FdtScan.SitsFlat` | riscv-pk/machine/fdt.c:44-84 | tokens in memory are exactly the words of the flattened form |
| `FdtScan.ScanChild` | riscv-pk/machine/fdt.c:61-74 | one node is scanned in place and kept or turned into NOPs |
| `FdtScan.Scan` | riscv-pk/machine/fdt.c:28-85 | for every well-formed tree and all callbacks the words, the state and the end are those prescribed, and no word outside changes |
| `FdtFilter.Marked` | riscv-pk/machine/fdt.c:515-532 | below a marked node nothing is marked or removed |
| `FdtFilter.Unmarked` | riscv-pk/machine/fdt.c:509-532 | with no mark set, the scan marks the node or removes the nodes below that go |
| `FdtFilter.LeftIsPruned` | riscv-pk/machine/fdt.c:526-547 | exactly the topmost matching nodes are removed if and only if what should be left has depth below 999 |
| `FdtFilter.LeftOfChain` | riscv-pk/machine/fdt.c:526-547 | of a chain of nodes without any match, those from depth 999 on are removed |
| `FdtFilter.FilterLosesDeepest` | riscv-pk/machine/fdt.c:526-547 | well-formed tokens of 999 nested nodes, none of them matching, lose the last node |
| `FdtFilter.FilterCompat` | riscv-pk/machine/fdt.c:534-549 | the words then stand for the tree without the nodes that go, for trees of every depth, and for the intended tree if and only if that has depth below 999 |
| `FdtFilter.FilterAndScan` | riscv-pk/machine/fdt.c:534-549 | a rescan sees the events of exactly that tree, which are those of the intended one if and only if that has depth below 999 |
| `SfsIndex.DirectStep` | ucore/src/ht-mksfs/mksfs.c:436-437 | one more direct block: all earlier blocks resolve as before |
| `SfsIndex.SingleStep` | ucore/src/ht-mksfs/mksfs.c:438-442 | one more block of the indirect table |
| `SfsIndex.DoubleStep` | ucore/src/ht-mksfs/mksfs.c:443-450 | one more block of a double-indirect row |
| `SfsIndex.CachedLine` | ucore/src/ht-mksfs/mksfs.c:445-449 | the cached table is the one of the row in use, or the row has none yet |
| `SfsIndex.OthersKept` | ucore/src/ht-mksfs/mksfs.c:426-453 | files whose tables are untouched resolve as before |
| `Sfs.CreateSfs` | ucore/src/ht-mksfs/mksfs.c:244-277 | an image too small for its bitmap is refused, any other starts empty |
| `Sfs.Image.AllocIno` | ucore/src/ht-mksfs/mksfs.c:181-188 | a block never handed out before, outside super block, root and bitmap; next and unused blocks add up to all blocks |
| `Sfs.Image.AddFile` | ucore/src/ht-mksfs/mksfs.c:209-222 | a new empty file whose inode has a block of its own |
| `Sfs.Image.UpdateCache` | ucore/src/ht-mksfs/mksfs.c:190-207 | a table other than the cached one would be lost, unless its number hashes to the bucket of 0 |
| `Sfs.Image.AppendBlock` | ucore/src/ht-mksfs/mksfs.c:426-453 | for every file, logical block i resolves to the i-th appended block; the search is never needed |
| `Sfs.Image.AddBlock` | ucore/src/ht-mksfs/mksfs.c:476-490 | a block is written to the disk and becomes the last block of its file; the contents of all other blocks stay |
| `SfsStore.EntryExact` | ucore/src/ht-mksfs/mksfs.c:476-487 | a directory entry holds its name in full if and only if the name has at most 252 characters |
| `SfsBitmap.FillBlock` | ucore/src/ht-mksfs/mksfs.c:344-358 | one block of the bitmap: a bit is set if and only if its block is free |
| `SfsBitmap.WriteBitmap` | ucore/src/ht-mksfs/mksfs.c:338-360 | the bitmap is complete and only the reserved blocks are written |
| `SfsBitmap.BitOf` | ucore/src/ht-mksfs/mksfs.c:353-357 | the bit of block b is set if and only if next_ino <= b |
| `Sfs.WriteFront` | ucore/src/ht-mksfs/mksfs.c:338-361 | bitmap and super block are written over no block of a file |
| `SfsStore.FlushTables` | ucore/src/ht-mksfs/mksfs.c:363-368 | the tables on the disk are then exactly those in memory |
| `SfsStore.FlushInodes` | ucore/src/ht-mksfs/mksfs.c:369-373 | every inode is in its block, over no table, data or other inode |
| `SfsStore.ReadsBack` | ucore/src/ht-mksfs/mksfs.c:338-375 | from the disk alone, every block of every file is read back |
| `Sfs.Image.CloseSfs` | ucore/src/ht-mksfs/mksfs.c:338-375 | bitmap, super block, tables, inodes and data are all on the disk, none over another, and every file can be read back from it |
| `Sfs.BuildImage` | ucore/src/ht-mksfs/mksfs.c:476-610 | whatever files are made and however their blocks are interleaved, a completed image holds every block where its inodes say |
| `FileTable.FileMap.FilemapAlloc` | ucore/src/kern-ucore/fs/file.c:36-61 | the lowest unused slot or the one asked for, with the exact error otherwise; an unused slot has nothing to give back |
| `FileTable.FileMap.FilemapFree` | ucore/src/kern-ucore/fs/file.c:63-71 | the inode is given back once, with no call inside |
| `FileTable.FileMap.FilemapAcquire` | ucore/src/kern-ucore/fs/file.c:73-77 | one more call inside, counted, also in a closed slot |
| `FileTable.FileMap.FilemapRelease` | ucore/src/kern-ucore/fs/file.c:79-86 | the last call out of a closed slot frees it |
| `FileTable.FileMap.FilemapOpen` | ucore/src/kern-ucore/fs/file.c:88-94 | a reserved slot with an open of its inode becomes consistent; an open one becomes inconsistent |
| `FileTable.FileMap.TakeOver` | ucore/src/kern-ucore/fs/file.c:209-216 | the slot takes over one open |
| `FileTable.FileMap.FilemapClose` | ucore/src/kern-ucore/fs/file.c:96-104 | the inode is given back now or by the last call inside |
| `FileTable.FileMap.OpenEnd` | ucore/src/kern-ucore/fs/file.c:196-217 | a failed open leaves the slot unused and nothing open, a successful one owes exactly one close |
| `FileTable.FileMap.FileClose` | ucore/src/kern-ucore/fs/file.c:220-229 | exactly an open slot is closed, at once or by the last call inside, and no other slot changes |
| `FileTable.FileMap.TransferBegin` | ucore/src/kern-ucore/fs/file.c:231-242 | the caller is inside, on the inode and from the position of the slot, and no other slot changes |
| `FileTable.FileMap.TransferEnd` | ucore/src/kern-ucore/fs/file.c:244-254 | the slot is still that of the inode worked on; the position moves only while open |
| `FileTable.FileMap.FileDup` | ucore/src/kern-ucore/fs/file.c:360-372 | the new slot has an open of its own and all others are untouched |
| `FileTable.FileMap.FsDestroy` | ucore/src/kern-ucore/fs/fs.c:51-68 | its assertion holds on all slots, and then every open of every inode is given back, if and only if no slot is reserved or closed and no call is in flight |
| `FileTable.FileMap.FsCloseAll` | ucore/src/kern-ucore/fs/fs.c:70-80 | slots 2 up to the last but one are closed if they are open, and all others are unchanged |
| `FileTable.FileMap.DupFs` | ucore/src/kern-ucore/fs/fs.c:82-103 | no assertion fails if and only if no slot is reserved; exactly the closed slots are stuck in the copy |
| `FileTable.DupOfClosed` | ucore/src/kern-ucore/fs/fs.c:82-103 | a file closed during a transfer: the copy has a closed slot with count 0, no call changes it, and fs_destroy ends in a failing assertion |
| `FileTable.DupOfInit` | ucore/src/kern-ucore/fs/fs.c:82-103 | a file being opened: an assertion fails |
| `FileTable.Run` | ucore/src/kern-ucore/fs/file.c:36-139 | over all interleavings no assertion fails, every slot accounts for the calls inside, for every inode the closes and the opens still owed are the successful opens and dups, and a stuck slot stays as it is |
| `Spipe.Pipe.IsClosedNolock` | ucore/src/libs-user-ucore/spipe.c:116-128 | a reader goes on while bytes are left, a writer does not |
| `Spipe.Pipe.ReadSection` | ucore/src/libs-user-ucore/spipe.c:39-66 | the next bytes in order, as many as asked for and there are |
| `Spipe.Pipe.WriteSection` | ucore/src/libs-user-ucore/spipe.c:68-92 | a prefix of the data is accepted; it is paused only by a full buffer, and nothing is accepted after a close |
| `Spipe.Pipe.Close` | ucore/src/libs-user-ucore/spipe.c:104-114 | the pipe is closed |
| `Spipe.Run` | ucore/src/libs-user-ucore/spipe.c:39-128 | over all interleavings the delivered bytes are a prefix of the accepted ones, at most the buffer is outstanding, and a close ends the accepting |
| `Spipe.Drain` | ucore/src/libs-user-ucore/spipe.c:39-66 | after a close the rest can be read to the end |
| `Bits.AndRounds` | ucore/src/kern-ucore/kmodule/mod.h:48-49 | the mask of ALIGN rounds down to a multiple of a power of two |
| `Bits.MarkBit` | ucore/src/kern-ucore/kmodule/mod.c:24-25 | a mark above all bits of an offset can be set, tested and removed again |
| `Layout.AlignMaskRounds` | ucore/src/kern-ucore/kmodule/mod.c:556-564 | for a power of two, the offset is the next multiple of the alignment |
| `Layout.MarkedCode` | ucore/src/kern-ucore/kmodule/mod.c:613-614 | below the mark, core offsets, marked init offsets and the value for "no offset" are told apart; exactly at the bound a marked offset is taken for none |
| `Layout.LayoutPass` | ucore/src/kern-ucore/kmodule/mod.c:584-597 | one mask over all headers: while the area fits below the mark, those of the pass are placed one behind the other |
| `Layout.LayoutArea` | ucore/src/kern-ucore/kmodule/mod.c:584-600 | an area is filled with aligned, disjoint ranges, executable sections first |
| `Layout.LoadedAsPlanned` | ucore/src/kern-ucore/kmodule/mod.c:879-884 | the loader copies every section to the place it was given |
| `Layout.LayoutSections` | ucore/src/kern-ucore/kmodule/mod.c:566-620 | if the areas fit below the mark and alignments are powers of two, every section in memory gets exactly one place, in its area, aligned and apart from all others, with text first, and the loader will find it there; only the entry sizes are written in any case |

## Left out

- DupsLoss.EliminateDupsMFree: one direction only for the whole loop, since an m lost inside an operand can be hidden by the operands around it, while an m lost at the root is never regained; the exact condition is stated per step.
- Symbols.EvalSolves: choices and int and hex ranges are not modelled, and modules_val is fixed.
- Engine.Symtab.CalcValue: the WRITE and CHANGED flags are not modelled.
- Engine.Symtab.ClearAllValid: the symbol for modules is calculated again, but modules_val stays the parameter it is.
- MenuRules.FinalizedSelects: the reverse dependencies that choices give themselves are not modelled, and the sums are made on the tree and not in place.
- Syntax.ParsePrint: on tokens, so that the quoting of constants and the lexer are not modelled.
- Malloc.Heap.Grow: the kernel's answers are parameters, and one outside of what do_brk promises counts as a refusal; shared memory is taken not to end right below a block of shared memory. Addresses are multiples of the header size.
- FdtFilter.FilterCompat: names in the strings block are given as a function of their offset, and the bytes that pad a value are taken to be zero.
- FdtScan.Scan: cell counts of nodes and the byte swap of words are not modelled; words are kept as their four bytes.
- Sfs.Image.AddBlock: running out of blocks ends the program, so nothing is said about the state then.
- Choice menus and the warnings of menu_finalize.
- trans_count outside expr_eliminate_dups.
- Freeing of expression nodes; sharing between them.
- Locking, interrupts and size overflow in the allocator and in the pipe; munmap.
- Inodes, directories and user memory behind file.c: vfs_open and vfs_close are opens that a slot owes.
- Reading of the host directories, file sizes, link counts and inode types, and byte order in the image builder; mksfs_be.c is the same algorithm.
- The query functions, filter_harts and device setup of riscv-pk, and its interrupt and console code.
- Relocation, symbol resolution and the use list of kernel modules.
- Front ends, generated lexers and hash tables, system call wrappers and user programs.
