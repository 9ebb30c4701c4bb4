# A model of the backend of a small C-like compiler

The compiler turns a parsed C-like program into a control-flow graph per function,
runs liveness analysis on each graph, allocates eight machine registers
greedily, lays out the stack frame and writes assembly text. Before allocating,
`writeFunction` spills the parameters and the arrays it finds in the blocks'
gen and kill sets. Neither spill lasts. No block has been filled at that point,
so gen and kill are empty and no array is found. The allocator then runs
liveness again, and its `fill` puts each parameter back into the gen or kill
of every block that reads or assigns it. The frame it lays out places only the
parameters: `spill` is given the empty list that the pressure check returned.
This project models that backend in Dafny and proves what it computes:

- `common.dfy` holds the `Option` and `Result` wrappers and the error kinds. A
  Python exception becomes an `Err` value that names the exception.
- `ir.dfy` (module `IR`) models the intermediate representation.
  - Types and variables.
  - The symbol table, a class over a sequence of symbols searched by name.
  - The checked constructors of binary expressions, conditions and assignments,
    with the warnings return statements print.
  - The `uses()` and `defines()` facts liveness reads.
- `cfg.dfy` (module `Cfg`) models the control-flow graph.
  - Basic blocks live in one arena, the class `NodeStore`, and are named by
    their index, which plays the part of a block object's identity. A block
    is a datatype value.
  - `Graph` is a class with `first`, `last`, `func` and `toSpill`.
  - Graph building (`gFunction`, `gStatement`, `gBlock`, `gBranch`, `+=`).
  - The depth-first listing of blocks (`getBlocks`, `__iter__`) and the
    `hasReturn` search.
  - `fill`, the liveness fixpoint, `getLabel` and `spill`.
- `regalloc.dfy` (module `RegAlloc`) models the `Allocator` class.
  - Per-block access and cross sets, the pressure check `toSpill` and the
    frequency ranking.
  - `replace`, `usedRegs`, `nextFreeReg`, `checkInterference`,
    `getNonInterfering` and `__call__`.
- `output.py`'s module state is the class `Generator` in `output.dfy`
  (module `Output`).
  - String-literal labels (`labels`).
  - The frame layout (`spill`).
  - The spill selection and allocation at the head of `writeFunction`.
  - The branch code `writeCondition` emits for each comparator.
  - The register lists pushed and popped around a print call.

Statements and conditions carry an `id` that stands for object identity.
Python compares a block with `==` and `in` as the list of statement objects
it is. The model compares element sequences, and two different statements
never compare equal because their ids differ. Equal contents still occur,
and the model keeps them. Some examples:

- A `while` merged into an empty block: as the first statement of a block, or
  directly after an `if` or a `while`, whose end block is empty. That block
  and the loop header then both hold just the condition. The listing skips
  the header, so liveness never fills it and its livein stays empty.
- `if (c) {} else {}`: both parts are empty blocks. The listing skips the
  else-part's block, and also the end block when nothing follows the `if`.

What is proved, in outline:

- **Symbol table and constructors.**
  - `Lookup` finds the first entry with a name.
  - Declaration fails exactly on a duplicate.
  - A void variable is rejected only after it has been appended.
  - The promoted type of a binary expression is the wider operand type.
- **gen and kill.** A variable is in gen exactly when it is read before any
  write in the block. A variable is in kill exactly when some assignment
  writes it.
- **Graph building.** Each builder's result equals `GraphOf`, a value-level
  reference built by cases on the statement. About `GraphOf`:
  - it keeps the blocks already in the arena;
  - it fills no block;
  - an `if` or `while` graph embeds its parts' graphs with the edges wired as
    the source wires them;
  - a block that starts with straight-line statements followed by a branch
    gets an entry holding those elements and then the condition, with the
    branch's successors.
- **Listing blocks.** The listing is the depth-first pre-order from the entry,
  skipping a block whose contents are already listed. It puts the entry first
  and is closed under successors. Every listed block is reachable. No two
  listed blocks have equal contents.
- **`hasReturn`.** A true answer means every path from the entry that ends in
  a block without successors passes a return. A block without a return whose
  successors were all visited answers false.
- **Liveness.** The loop terminates: the sets only grow within a finite
  universe. It ends with `liveout = union of the successors' livein` and
  `livein = gen + (liveout - kill)` in every listed block. Nothing else
  changes.
- **Spilling.** The parameters, then the arrays met in the gen and kill of
  listed blocks, leave those sets and join `toSpill`. On graphs as
  `gFunction` builds them, no array is met. This is listed under Findings.
- **Register allocation.** With no block over pressure, a freshly built
  allocator gives the variable at position `i` of its queue register `i`,
  below `nreg`. No two variables share a register, and the sets are renamed
  accordingly. Over pressure, it refuses. `writeFunction` fails with
  `NoAddOnList` exactly when the first allocator finds a block over pressure.
- **Labels.** String literals are numbered `s0, s1, ...` in order of first
  appearance, and different literals get different labels.
- **Frame layout.** Spilled variables are laid out from the top of the frame
  down without overlap, inside the frame; each parameter's offset is the
  size of the one before.
- **Branch code.** It takes `children[0]` exactly when the condition holds,
  except for the overflow listed under Findings.

## Model

| member | source | states |
|---|---|---|
| IR.SymbolTable.constructor | ir.py:333 | the table starts with no entries |
| IR.SymbolTable.Lookup | ir.py:64-69 | succeeds exactly when some entry has the name, and then returns the first such entry; otherwise fails with `NotFound(key)` |
| IR.SymbolTable.Contains | ir.py:72-77 | true exactly when some entry has the name |
| IR.SymbolTable.Pop | ir.py:79-81 | the entries are cut back to the first `size`, and left alone when there are no more than that |
| IR.SymbolTable.Declare | ir.py:23-31 | fails with `AlreadyDeclared` exactly when the name is present, leaving the table alone; otherwise the symbol is appended |
| IR.SymbolTable.DeclareVariable | ir.py:33-39 | a duplicate fails as in `Declare`; otherwise the variable is appended, and then rejected with `VoidVariable` when its type is void (it stays in the table) |
| IR.Promote | ir.py:290-298 | the result type is one of the operand types, or char; on non-void operands it is one of the two |
| IR.PromoteIsWider | ir.py:290-298 | on non-void operands, the promoted type is the wider in the order char < int < float; it is symmetric and at least as wide as either operand |
| IR.MkBinary | ir.py:283-303 | succeeds exactly when the operator is known and neither operand is void, with the error kind of each failing case; the result keeps the operator and the operands and has the wider operand type |
| IR.MkCondition | ir.py:312-321 | succeeds exactly when the comparator is known and neither operand is void, with the error kind of each failing case; the result keeps comparator and operands |
| IR.UsesWithinRefs | ir.py:235-247 | `uses()` of an expression reports only variables it names, and misses only those inside call arguments |
| IR.ItemsUsesExactly | ir.py:168-175 | a print statement uses `x` exactly when one of its non-string items uses `x` |
| IR.EntryDefines | ir.py:194-195 | a block element defines something exactly when it is an assignment, and then exactly the variable (or whole array) it assigns |
| IR.MkAssign | ir.py:182-188 | succeeds exactly when the right-hand side is not void, else `VoidExpression`; between non-void types the cast warning is given exactly when the value type is wider than the target type |
| IR.SyntheticReturnIsSilent | ir.py:137-146 | a `return` of a constant of the function's own type draws no warning |
| IR.ReturnCastWarning | ir.py:143-146 | between non-void types, the cast warning is given exactly when the value type is wider than the declared type (promotion would not give back the declared type); otherwise there is no warning |
| IR.ReturnVoidWarnings | ir.py:137-142 | "returning expression" exactly when only the function is void, "void return" exactly when only the value is |
| Cfg.KillExactly | cfg.py:49-59 | after a scan, `v` is in kill exactly when some assignment of the block assigns `v` |
| Cfg.GenExactly | cfg.py:49-58 | `v` is in gen exactly when it was not killed before, and some element reads it with no earlier element of the block defining it |
| Cfg.FillFromScratch | cfg.py:46-61 | on a block whose gen and kill are empty, `fill` gives the textbook gen and kill sets, and livein equals gen |
| Cfg.RefillIsNoOp | cfg.py:46-61 | a second `fill` of an unchanged block changes nothing (gen and kill are extended, never cleared) |
| Cfg.ChildrenLiveInExactly | cfg.py:78-81 | `v` is in the union built for liveout exactly when it is in the livein of some successor |
| Cfg.NodeStore.constructor | cfg.py:15 | no blocks yet, and the label counter starts at 0 |
| Cfg.NodeStore.NewNode | cfg.py:18-25 | one new block with no elements, no label, no successors and empty sets is added at the end; nothing else changes |
| Cfg.NodeStore.AppendEntry | cfg.py:166 | only block `i` changes, and it gets the element at the end of its list |
| Cfg.NodeStore.AddChild | cfg.py:184 | only block `i` changes, and it gets the successor at the end of its list |
| Cfg.NodeStore.WireLoop | cfg.py:198-201 | the header gets successors header, body entry and end block, in that order; then the body's last block gets the header |
| Cfg.NodeStore.GetLabel | cfg.py:63-70 | an unlabelled block takes the counter's value and the counter advances; a labelled block keeps its label and nothing changes; labels handed out stay pairwise different |
| Cfg.NodeStore.Fill | cfg.py:46-61 | only block `i` changes, to its filled form, whose meaning `GenExactly`, `KillExactly` and `FillFromScratch` state |
| Cfg.NodeStore.NodeLiveness | cfg.py:72-84 | only block `i` changes: liveout becomes the union of the successors' livein and livein becomes gen + (liveout - kill); the result is true exactly when the size of either set changed |
| Cfg.NodeStore.Absorb | cfg.py:97-98 | block `i` gets block `j`'s elements after its own and a copy of `j`'s successor list; nothing else changes |
| Cfg.NodeStore.Discard | cfg.py:135-136 | only block `i` changes: `v` leaves its gen and kill |
| Cfg.NodeStore.DiscardAll | cfg.py:134-136 | `v` leaves gen and kill of exactly the listed blocks; every other block is unchanged |
| Cfg.NodeStore.FillBlocks | cfg.py:123-124 | exactly the listed blocks are filled (a block listed twice is filled as once); the others are unchanged |
| Cfg.NodeStore.Sweep | cfg.py:127-131 | a sweep keeps the liveness invariant; a sweep with no change reported ends at the fixpoint and, after the first sweep, changed nothing; a reported change strictly shrinks the set of missing (block, variable) pairs |
| Cfg.NodeStore.Settle | cfg.py:126-131 | the repeated sweeps end, change only livein and liveout of listed blocks, and leave every listed block satisfying the liveness equations |
| Cfg.LiveStepKeeps | cfg.py:72-84 | one step on a listed block keeps every livein within the universe, makes the block satisfy the livein equation, and its livein (and liveout, once it has been stepped) only grows |
| Cfg.MissingStrict | cfg.py:126-131 | a step that grows a listed block's sets within the universe removes at least one missing pair, which bounds the number of sweeps |
| Cfg.NodeStore.GetBlocks | cfg.py:208-215 | the result is `Dfs`, the depth-first pre-order: nothing is added when `l` already holds a block with `n`'s contents; otherwise `n` is appended and each successor is listed in turn from the list so far. The result extends `l` by blocks reachable from `n`, covers every successor of each added block, and stays free of equal-content duplicates |
| Cfg.NodeStore.HasReturnFrom | cfg.py:27-44 | marks `n` visited; true at once when the block holds a return; false when it holds none and every successor is already visited (or `n` itself); a true answer means the newly visited blocks hold a return, or have successors that were all visited |
| Cfg.SafeRegionReturns | cfg.py:27-44 | every path within the region a true answer explored that reaches a block without successors passes a return |
| Cfg.Graph.constructor | cfg.py:90-94 | a graph of one new empty block, both first and last, with no function and nothing spilled |
| Cfg.Graph.Over | cfg.py:205 | a graph over existing blocks, with the given first and last blocks |
| Cfg.Graph.Merge | cfg.py:96-102 | `g += h`: g's last block gets h's entry's elements and successor list; last moves to h's last block when h's entry and last differ as lists; nothing else changes |
| Cfg.Graph.HasReturn | cfg.py:110-113 | a return in the entry block gives true; an entry without a return whose only successor, if any, is itself gives false; a true answer means every path from the entry to a block without successors passes a return |
| Cfg.Graph.Blocks | cfg.py:115-118 | the `getBlocks` listing from the entry, which is the depth-first pre-order `Dfs`: the entry first, closed under successors, all reachable, no two with equal contents |
| Cfg.Graph.Liveness | cfg.py:120-131 | every listed block satisfies `liveout = union of successors' livein` and `livein = gen + (liveout - kill)`; listed blocks keep elements, successors and labels and get their filled gen and kill; other blocks are unchanged |
| Cfg.Graph.Spill | cfg.py:133-138 | `v` leaves gen and kill of exactly the listed blocks and joins `toSpill`; nothing else changes |
| Cfg.GStatement | cfg.py:155-167 | the arena, entry and last block are those of `GraphOf`, and the ghost results are the entry and last block of the branch's parts (`PartEnds`); as consequences spelled out: a declaration gives one empty block; a simple statement gives one block holding it; a branch starts with a new block holding only its condition, wired as `GIf` or `GLoop` state; a block of simple statements gives one block of their elements in order; the new blocks point only to new blocks |
| Cfg.GBlock | cfg.py:169-175 | the statement graphs merged in order, equal to `BlockUpTo` over the whole body: the new blocks point only to new blocks, and straight-line statements end up, in order, in one block without successors |
| Cfg.GBlockStep | cfg.py:172-173 | one `graph += gStatement(stmt)`: the graph after `k + 1` statements is `BlockUpTo` of `k + 1`, still a fragment with the same entry |
| Cfg.GraphOf | cfg.py:155-206 | the reference graph of a statement: its entry is the first block it adds and its last block is one it adds |
| Cfg.BlockUpTo | cfg.py:169-175 | the reference graph after the first `k` statements of a block, entry first among the new blocks |
| Cfg.Merged | cfg.py:96-102 | `g += h` on values: g keeps its entry, the arena keeps its length, and the last block is g's or h's |
| Cfg.GraphOfKeeps | cfg.py:155-206 | building a graph leaves every block already in the arena as it was |
| Cfg.BlockUpToKeeps | cfg.py:169-175 | the same for a block's statements merged so far |
| Cfg.GraphOfUnfilled | cfg.py:155-206 | building a graph fills no block: gen and kill stay empty in every block that had them empty, and new blocks start empty |
| Cfg.BlockUpToUnfilled | cfg.py:169-175 | the same for a block's statements merged so far |
| Cfg.IfShape | cfg.py:180-192 | an `if` graph: the condition block holds only the condition and has successors then-entry and else-entry (or the end block); the blocks of each part are kept, except that each part's last block gains the end block as its last successor; the end block is empty and comes right after the then-part |
| Cfg.ThenShape | cfg.py:180-185 | after the then-part is wired: the condition block's one successor is the then-entry, the then-part is kept but for its last block's new edge to the end block |
| Cfg.ElseShape | cfg.py:187-190 | with an else-part: the condition block's successors are both entries, and both parts are kept but for their last blocks' new edge to the end block |
| Cfg.LoopShape | cfg.py:194-201 | a `while` graph: the condition block holds only the condition and has successors itself, the body's entry and the end block; the body's blocks are kept, except that its last block gains the back edge; the end block is empty and comes right after the body |
| Cfg.BlockStraight | cfg.py:169-175 | a block whose first `k` statements are straight-line is one block holding their elements in order, with no successor |
| Cfg.BlockEntry | cfg.py:169-175 | straight-line statements, then an `if` or `while` at position `k`: from then on the block's entry holds those elements followed by the condition, has the branch's successors, and is no longer the last block |
| Cfg.BranchEntry | cfg.py:96-102 | the step of `BlockEntry` that merges the branch itself |
| Cfg.GIf | cfg.py:180-192 | the result equals `GraphOf`, and the ghost results are the parts' entries and last blocks; spelled out: the entry holds only the condition; its successors are the then-part's entry and then the else-part's entry, or the end block; each part's last block ends with the end block; the graph's last block is the empty end block |
| Cfg.AttachThen | cfg.py:181-185 | the arena is `ThenWiredOf`: the condition block is new, has the then-part's entry as its one successor, and the then-part's last block ends with the new end block; `tf`, `tl` are the then-part's entry and last block |
| Cfg.AttachElse | cfg.py:187-190 | the arena is the else-part's `GraphOf` with two edges added: its entry becomes the condition block's next successor and its last block ends with the end block; `ef`, `el` are its entry and last block |
| Cfg.GLoop | cfg.py:194-201 | the result equals `GraphOf`, and the ghost results are the body's entry and last block; spelled out: the entry holds only the condition and has successors itself, the body's entry and the end block; the body's last block ends with the entry; the last block is the empty end block |
| Cfg.GBranch | cfg.py:177-206 | succeeds exactly on `if` and `while`, with the graph `GraphOf` gives and the ghost results the parts' entries and last blocks; either starts with a new block holding only the condition and ends with an empty end block. An `if` entry's successors are the then-part's entry and then the else-part's entry, or the end block, and each part's last block ends with the end block. A `while` entry's successors are itself, the body's entry and the end block, and the body's last block ends with the entry. Any other statement fails with `NotABranch` and changes nothing |
| Cfg.DfsSkeleton | cfg.py:208-215 | the listing reads only elements and successors: two arenas that agree on those list the same blocks |
| Cfg.BlocksOfSkeleton | cfg.py:208-215 | a listing of one arena is a listing of any arena that agrees with it on elements and successors |
| Cfg.GFunction | cfg.py:140-153 | the arena, entry and last block are `BlockUpTo` over the body, with `return 0` of the function's type appended to the last block exactly when `hasReturn` answers false; that statement has an identity the body does not use; the graph is tagged with the function; true from `hasReturn` means every path returns; the warning is printed exactly when no return was found and the function is not void; a body of simple statements gets the return exactly when it holds none |
| Cfg.FinishFunction | cfg.py:147-148 | the return is appended to the last block exactly when `hasReturn` answers false, and nothing else changes; the graph stays a fragment |
| Cfg.FunctionUnfilled | cfg.py:140-153 | the graph `gFunction` builds, with or without the appended return, has empty gen and kill in every new block |
| RegAlloc.CrossVars | regalloc.py:25-26 | cross and access sets are disjoint, and together they hold every variable of gen, kill, livein and liveout |
| RegAlloc.Subst | regalloc.py:51-56 | `v` leaves the set and `reg` enters it exactly when `v` was there; nothing else changes and the set never grows |
| RegAlloc.Frequency | regalloc.py:39-41 | the number of blocks whose access or cross set holds `v`, at most the number of blocks |
| RegAlloc.SortByFrequency | regalloc.py:42 | the queue lists each candidate exactly once, by non-increasing frequency |
| RegAlloc.Overfull | regalloc.py:44-47 | a block position is listed exactly when its two sets together hold more than `nreg` elements; positions are in increasing order |
| RegAlloc.RenamedContents | regalloc.py:49-58 | after `replace(q[0], 0)`, `replace(q[1], 1)`, ... on a set, a queued variable is gone, every other one stays, and register `i` is present exactly when it was already there or `q[i]` was |
| RegAlloc.QueueBound | regalloc.py:29-42 | the queue is no longer than the last block's two sets together, so no more than `nreg` when that block is not over pressure |
| RegAlloc.FreeAt | regalloc.py:63-70 | midway through the queue, the next variable is unassigned, and register `k` is the lowest one no variable holds |
| RegAlloc.AssignStep | regalloc.py:97-102 | giving the next queued variable register `k` advances the assignment-by-position state by one |
| RegAlloc.ByPositionDistinct | regalloc.py:97-112 | registers handed out by queue position are all below the queue length and pairwise different |
| RegAlloc.Allocator.Tabulate | regalloc.py:24-27 | for each listed block, by position: access = gen + kill and cross = (livein + liveout) - access, with no register |
| RegAlloc.Allocator.Build | regalloc.py:24-42 | the tables, the candidates (exactly the variables of the last listed block) and their queue, each once, by non-increasing frequency over all blocks |
| RegAlloc.Allocator.Analyse | regalloc.py:22 | `cfg.liveness()` on the graph as it was (`LivenessRan`): the listed blocks are those the arena lists from the entry, entry first; they are filled and satisfy the liveness equations and keep elements, successors and labels; no other block changes |
| RegAlloc.Allocator.Prepare | regalloc.py:18-42 | `Prepared`: liveness ran from the arena as it was, and the tables, the register map and the queue are those `Tabulate` and `Build` give over the listed blocks |
| RegAlloc.Allocator.constructor | regalloc.py:18-42 | `Prepared` from the arena before the call: liveness ran over the listed blocks; tables as in `Tabulate`; every candidate of the last listed block is mapped to no register and queued once, ranked by frequency; `nreg` is kept |
| RegAlloc.Allocator.ToSpill | regalloc.py:44-47 | a block position is listed exactly when its two sets together hold more than `nreg` elements |
| RegAlloc.Allocator.Replace | regalloc.py:49-58 | in every block's two sets `v` gives way to `reg`; `v` is then mapped to `reg`; the queue is unchanged |
| RegAlloc.Allocator.UsedRegs | regalloc.py:60-61 | exactly the values of the register map, no register included |
| RegAlloc.Allocator.NextFreeReg | regalloc.py:63-70 | the lowest register below `nreg` that no variable holds; `NotEnoughRegs` exactly when all of them are held |
| RegAlloc.Allocator.CheckInterference | regalloc.py:72-77 | true exactly when some block's sets hold `reg` |
| RegAlloc.Allocator.GetNonInterfering | regalloc.py:79-88 | always fails with the missing attribute `nRegs` |
| RegAlloc.Allocator.Call | regalloc.py:90-112 | refuses with `SpillNotPerformed`, changing nothing, when a block is over pressure. From a fresh allocator with none over pressure it succeeds: the `i`-th queued variable gets register `i < nreg`, registers are distinct, every set is renamed, and it returns the register map |
| RegAlloc.Allocator.AssignQueue | regalloc.py:97-112 | the queue is emptied and the map returned, or fails only through `getNonInterfering`; from no assignment on a queue of at most `nreg` variables, every variable gets its queue position |
| Output.NatToStringInjective | output.py:58 | different numbers have different decimal texts |
| Output.StrLabelInjective | output.py:58 | two labels `'s' + str(n)` are equal exactly when their numbers are |
| Output.FirstSeenContents | output.py:51-59 | the new literals in order of first appearance are each listed once, and are exactly the literals not already labelled |
| Output.ListOne | output.py:52 | the list of blocks of one graph, as `getBlocks` gives it from the entry |
| Output.ListGraphs | output.py:51-52 | for each graph in order, the list of blocks from its entry |
| Output.NumberingMeaning | output.py:47-60 | after numbering, every literal is a key; earlier entries are kept; the `i`-th new literal in order of first appearance is labelled `s<i>`; the counter equals the number of new literals |
| Output.LabelStep | output.py:57-59 | a new literal gets the next label and one more is counted; a known one changes nothing |
| Output.FreshLabelsDistinct | output.py:47-60 | numbering from an empty table gives different literals different labels, each `s<i>` with `i` below the number of distinct literals |
| Output.Generator.constructor | output.py:23-28 | the module state starts with empty tables and a zero frame |
| Output.Generator.LabelTexts | output.py:55-59 | the table and counter after one block's literals are the numbering's, continued over those literals |
| Output.Generator.LabelBlocks | output.py:52-59 | the table and counter after the listed blocks are the numbering's over their literals, block by block |
| Output.Generator.Labels | output.py:47-60 | each graph's blocks are listed from its entry; the label table is the numbering, from the old table, of the literals of all listed blocks graph by graph; nothing else changes |
| Output.FrameSize | output.py:377-381 | the frame size is the total bytes of the spilled variables, size times length for an array |
| Output.FrameLayout | output.py:383-389 | distinct spilled variables: the `k`-th lies at the frame size minus the bytes of the first `k + 1`; all lie inside the frame, later ones below earlier ones without overlap, the last at 0; other entries are kept |
| Output.ParamLayout | output.py:391-395 | distinct parameters: the first at the given offset, each later one at the size of the type of the one before it; other entries are kept |
| Output.Generator.PlaceSpilled | output.py:383-389 | the offsets of the second `spill` loop, as `FrameLayout` lays them out; nothing else changes |
| Output.Generator.PlaceParams | output.py:391-395 | the offsets of the parameter loop, as `ParamLayout` states; nothing else changes |
| Output.Generator.Spill | output.py:372-397 | returns the frame size; the spilled variables are placed from the top down, then the parameters from four bytes above the frame; nothing else changes |
| Output.Wrap | output.py:301-306 | a result wrapped to a 32-bit signed word is a word, and a word is left as it is |
| Output.DecisionCorrect | output.py:301-330 | for each comparator, the code branches to `children[0]` exactly when the condition holds, unless the operand `<=` or `>=` increments is the largest word |
| Output.DecisionOverflows | output.py:301-306 | as written, `0 <= 2147483647` and `2147483647 >= 0` branch to `children[1]` although each holds |
| Output.DecisionFixedCorrect | output.py:308-330 | the corrected code (`BLE`/`BGE`, no increment) branches to `children[0]` exactly when the condition holds, for all words |
| Output.UnknownComparatorFallsThrough | output.py:308-330 | a comparator outside the six gets a compare and no branch, and condition construction rejects it |
| Output.RegisterList | output.py:428-429 | fails exactly when some variable has no register; otherwise, in dict order, each variable's register plus `FIRST_REG` |
| Output.SaveRestoreMatch | output.py:424-444 | save and restore fail together; both are empty exactly when the map is; otherwise they push and pop the same list |
| Output.AllocatedRegistersSaved | output.py:424-433 | for a complete allocation with distinct registers, the pushed list names each machine register once, all within R4..R11 |
| Output.SpillOne | output.py:81-82 | one `cfg.spill(v)` after the spills of `done`: `v` joins the graph's spill set and leaves gen and kill of every block the original arena lists; blocks keep elements and successors, and lose a variable from gen or kill only if it is spilled |
| Output.SpillParams | output.py:80-82 | the spill set grows by exactly the parameters, which leave gen and kill of every block the arena as it was lists; blocks keep elements and successors and lose nothing else |
| Output.SpillAccessArrays | output.py:86-89 | the spill set grows by exactly the arrays in the block's gen or kill as the loop starts; they leave gen and kill of every listed block, and nothing else leaves |
| Output.SpillArrays | output.py:84-89 | `listed` is the listing of the arena as it was; the spill set grows by exactly `ArraysIn` of it, the arrays in the gen or kill of a listed block with at least one element; they leave gen and kill of every listed block, and nothing else leaves |
| Output.SpillBlockArrays | output.py:85-89 | the statement loop on the `k`-th listed block: afterwards the arrays of the first `k + 1` blocks are spilled and cleared, and the spill set is exactly those more |
| Output.SpillAccessArraysStep | output.py:86-89 | one pass on block `b`: the arrays `b` held in the original arena are spilled and cleared, and the spill set grows by exactly those |
| Output.ArraysInExactly | output.py:84-89 | an array is met exactly when some listed block with at least one element holds it in gen or kill |
| Output.SpillVariables | output.py:75-89 | the spill set grows by exactly the parameters and `ArraysIn` of the listing of the arena as it was; these leave gen and kill of every listed block; blocks keep elements and successors and lose nothing else |
| Output.ParamsThenArrays | output.py:80-89 | the arrays met after the parameters were spilled, together with the parameters, are those met on the arena before them, together with the parameters |
| Output.ArraysUnmet | output.py:84-89 | when every listed block still has empty gen and kill, as on every graph `gFunction` builds (`FunctionUnfilled`), no array is met |
| Output.FilledAccess | cfg.py:46-61 | after `fill`, gen or kill holds every variable an element of the block reads or assigns |
| Output.RefillRestores | cfg.py:46-61 | a spilled variable the block reads or assigns is out of its gen and kill, and back in them after the next `fill` |
| Output.SpillArraysFilled | output.py:84-89 | corrected: with the listed blocks filled first, every array an element of a listed block reads or assigns is spilled, and nothing but arrays joins the spill set |
| Output.FilledArraysMet | output.py:84-89 | the arrays met on the filled arena are every array an element of a listed block reads or assigns, and only arrays |
| Output.NewAllocator | output.py:91 | a fresh allocator over the graph after liveness (`Built`): liveness ran from the arena as it was over the blocks it lists, entry first; tables are theirs; the queue lists the last listed block's variables once each, ranked by frequency; its pressure check is `Overfull` of those tables |
| Output.Allocate | output.py:91-100 | `AllocOutcome`: the first allocator is built from the arena as it was; it fails with `NoAddOnList` exactly when that allocator finds a block over pressure, extending the list `toSpill()` returned; otherwise the second allocator, built from the arena the first left, decides as `AllocateAgain` states |
| Output.AllocateAgain | output.py:99-100 | `SecondOutcome`: an allocator built from the arena as it was fails with `SpillNotPerformed` exactly when it finds a block over pressure; otherwise the map holds exactly its queue and gives its `i`-th variable register `i`; registers are distinct and below `NREGISTERS` |
| Output.Generator.AllocateFrame | output.py:91-101 | the outcome of `Allocate`; on success the register map is its result, the frame size is 0, and only the parameters are placed, from offset 4; the labels are unchanged |
| Output.Generator.LayOut | output.py:100-101 | keeps the register map and lays out the frame for the empty list: size 0, only the parameters placed from offset 4; the graph and the labels are unchanged |
| Output.Generator.SelectSpills | output.py:75-101 | `listed` is the listing of the arena as it was; the spill set grows by exactly the parameters and `ArraysIn` of it, which leave gen and kill of the listed blocks; then the outcome of `Allocate` from that spilled arena; on success the register map is the allocation (registers distinct, below eight), the frame size is 0, and only the parameters are placed, from offset 4 |

## Left out

- Lexer, parser, driver: not part of this model. The same goes for the text writing of `write`, `writeStrings`, the statement and expression writers and `initValues` in `output.py`, the logging, and the warnings printed to standard error. The model tracks instead whether each warning is given.
- Floating-point constants and values: no operation of the model computes with them.
- Cfg.Graph.Merge: `self.last.children = node.first.children` makes two blocks share one successor list. The model copies the list instead. This changes no graph. Edges are only ever appended to a graph's `last` block. `last` shares its list only with the entry of a graph of one block, and no block points to that entry.
- Cfg.Graph.Liveness: lists the blocks once, where the source lists them anew for every sweep. The listing reads only elements and successors, which fill and liveness leave alone, so each listing is the same.
- Cfg.Graph.HasReturn: the false answer is characterised only for an entry without a return that has no successor but itself. The search also answers false on some graphs where every path returns. An example is an `if`/`else` whose join block returns: the else-part finds the join visited and answers false. `gFunction` then appends a return that is never reached.
- Cfg.NodeStore.HasReturnFrom: the false answer is stated only for a block whose successors were all visited. The false that the first failing successor passes on is not stated.
- RegAlloc.SortByFrequency: among equal frequencies, the order follows the iteration order of a Python set, which the model leaves open.
- Output.SpillAccessArrays: the variables of a block are taken in no particular order, because a Python set's iteration order is not modelled. The same goes for the key order of a dict, which `RegisterList` receives as a parameter.
- RegAlloc.Allocator.Call: the fall-back `candidateRegs[0]` is not modelled, because `getNonInterfering` always raises before it is reached.
- RegAlloc.Allocator.Call: its result is stated only for a freshly built allocator. Other starting states get only the error kinds.
- Output.Allocate: the model does not prove that the second allocator sees the same sets as the first, so it does not prove that the second call succeeds. The second allocator reruns liveness over the same graph. Success is stated for the case where both pressure checks pass.
- Output.Allocate: on the failing path, the model leaves out the one `cfg.spill(block)` that runs before the error. That call discards nothing and adds the block to the graph's `toSpill`.
- Output.Generator.Labels: the blocks of every graph are listed first and numbered afterwards, where the source numbers graph by graph. Listing changes nothing, so it comes to the same.
- Output.BlockTexts: the loops over statements, print items and string items (output.py:53-56) are one function giving each block's literals in order.
- Output.Decision: the register numbers and label text the instructions carry are left out. The model keeps each instruction's kind, the operand it increments and which child a branch targets.
- Output.Decision: `ADD Rb Rb #1` increments the operand's register in place. For a variable that has a register, that register is the variable's own, so the compare adds one to the variable. The model does not track register contents, so it does not capture this.
- Output.Generator.SelectSpills: keeps the array spill as written (`SpillArrays`), because that is the program's behaviour. The corrected `SpillArraysFilled` under Findings is not wired into it.
- Output.SpillParams: the parameters it spills come back. The allocator's liveness run fills the blocks again, and `fill` returns each parameter to the gen or kill of every block that reads or assigns it (`RefillRestores`). The model states this effect and offers no corrected version, because what the authors meant the parameter spill to achieve is not evident.
- IR.SimpleUses: models `return;` as reading nothing. In the source it reads the `uses()` of a bare `Expression`, a method that class does not have.
- IR.Variable: an array's length is a natural number. The parser passes on the length text as it read it.

## Findings

| source | as written | input that shows it | evidently intended | confidence | as-written member | corrected member |
|---|---|---|---|---|---|---|
| output.py:301-306 | `<=` adds 1 to the second operand and branches with `BLT`; `>=` adds 1 to the first and branches with `BGT` | `0 <= 2147483647`: the increment wraps to -2147483648, so the branch goes to `children[1]` | `BLE` / `BGE` on the unmodified operands, taking `children[0]` exactly when the condition holds | not executed | Output.DecisionOverflows | Output.DecisionFixedCorrect |
| output.py:84-89 | the array spill reads each listed block's gen and kill, which no `fill` has set yet when `writeFunction` runs | any function with an array, such as `int a[2]; a[0] = 1;`: every gen and kill is empty, so the loop spills no array | every array a listed block reads or assigns is spilled, as when the blocks are filled first | not executed | Output.ArraysUnmet | Output.SpillArraysFilled |
