# Slake runtime: verified models

A Dafny model of the parts of the Slake bytecode runtime whose behaviour depends on invariants that
no single function shows: the collector, bytecode assembly and control-flow graphs, the interpreter's
stack, type checks and layouts, and the worklists of generic instantiation and module loading. Code
that changes state in place is modelled by classes and methods with the same pointers, counters and
loops; what the methods compute is then related to independent definitions.

`dafny verify dfyconfig.toml` checks the whole project.

## What is modelled

**Collector** (`GcObject`, `GcWalk`, `GcMark`, `GcSweep`, `GcCollect`, `GcRuntime`, `GcProperties`, `GcRoots`, with
`Reachability` and `SeqOps`; `TypeRefs`, `TypeDefs`, `TypeSearch` and `GcTypeDefs` for the interned type
definitions).
Objects carry the real `next`/`prev` pointers of the two intrusive lists, status, lock, generation, host
count and size. Marking is proved to compute reachability, both sweeps to delete exactly the rest, and whole
collections to keep the runtime's invariant over any sequence of allocations, stores, host references and
collections. What stays is told exactly in terms of the cache directory, the contexts, the host counts and ways of
references (`GcRoots.StaysExactly`). Freed objects stay in the model with a flag, so that touching one is an outcome
(`UseAfterFree`) whose exact conditions are proved. Type definitions are compared as the source does,
through the objects that they refer to, along one path of a search tree of any shape; an answer that is not
right is an outcome too (`Disordered`), with which the model of a collection ends.

**Bytecode** (`BcBuilder`, `Cfg`, `CfgSemantics`). Symbolic labels to flat offsets to basic blocks, each
level with its own small-step semantics over an arbitrary machine, and simulation between them.

**Stack** (`StackMemory`, `FrameSpec`, `FrameVariables`, `FrameChains`, `Frames`, `RegisterBanks`). `Frames.Context`
keeps cells in a byte buffer, chained by offsets as in the source; `FrameSpec` is an abstract machine on lists of
frames. Every operation of the first refines the second, keeps the variables and arguments that the stack still
holds, and leaves everything on it at a multiple of its alignment; what returns and LEAVE restore is proved on the
second for every run. `FrameVariables` puts the contents of local variables beside it, with STORE and LVALUE. A
variable is its bytes, which `Primitives` encodes and decodes. `RegisterBanks` is about the addresses of registers.

**Types** (`Primitives`, `TypeGraph`, `Layouts`, `LayoutPreparation`, `StaticFields`). The two
explicit-stack searches against path definitions, the layout arithmetic against a declarative description,
and the preparation of nested structs, unions and base classes with consistent caches.

**Instantiation and loading** (`GenericCache`, `Duplication`, `Imports`). The two-map cache against a
plain map over runs, the round-based deep copy against isomorphism, and the import rounds against
the import closure.

## Where the code does not do what it seems meant to

Each of these is modelled as the code has it; the table names the exact condition and, where there is
one, the counterexample.

- The first sweep decides from the list head alone whether to unlink type definitions; if the head is one
  the second sweep starts on freed memory (`GcCollect.HeadFreed`, `GcProperties.DeadTypeDefFaults`).
- The young pass has no roots in persistent objects, not even in those held by the host
  (`GcProperties.DanglingExactly`, `HeldObjectDangles`).
- A type definition is unregistered by comparison, so an unregistered equal one evicts the live one
  (`EvictedExactly`, `EqualTypeDefEvicts`). The loader creates such duplicates (slake/loader/loader.cc:103-107).
- The comparator of type definitions looks at no more of a tuple than there is of the one on the left
  (slake/obj/typedef.cc:823-837): it orders a set of definitions exactly when no tuple begins a larger one
  (`TypeDefs.OrdersExactly`, `TupleBeginsTuple`). A search in the ordered set, however the tree is balanced, answers
  rightly if and only if no entry begins, or is begun by, the definition searched for; otherwise it reads past the
  end of a tuple or takes another entry for it, and a removal takes that one out (`TypeSearch.DescendsExactly`,
  `DescendsToShorter`, `DescendsToLonger`, `WrongEntryFound`). Interning and the sweep do what they should
  exactly under this condition (`GcRuntime.Runtime.RegisterTypeDef`, `GcCollect.Searchable`,
  `GcProperties.TupleDisorders`).
- A branch to instruction 0 shifts all later block labels (`CfgSemantics.LabelsRightExactly`,
  `BackwardDiverges`).
- `check_terminal_instructions` reads the last instruction of a block without asking whether there is one;
  the model returns `EmptyBlock` there (`CfgSemantics.AcceptedExactly`, `ChecksEmptyBlock`).
- A register's address is got by adding its number, times the size, to the offset of its bank, but addresses get lower
  as offsets get higher: only the first register of a bank is in it (slake/rt/exec.cc:512-522; so too in the collector,
  slake/rt/gc_heapless.cc:556-580). The offset of the Object bank is noted as that of the kind Any
  (slake/rt/exec.cc:192-198). Registers are all in their banks exactly for functions without Object registers and
  with at most one of each kind (`RegisterBanks.InBanksExactly`); for others `NextBlockOverlaps` shows what the next
  allocation overwrites. `Frames` and `FrameSpec` keep registers as their banks would.
- `RET` checks the result register against the registers of the function that returns
  (`FrameSpec.ReturnsExactly`, `ReturnRefused`).
- `LEAVE` between `PUSHARG` and the call releases the pushed argument (`ArgumentsStayExactly`,
  `ReleasedArgument`).
- LEAVE invalidates only the registers that its local variables were made in, and RET returns any value, so a copy of a
  reference can outlive its variable: in a run this happens if and only if a LEAVE, a RET or a write meets the
  condition that `FrameVariables.Strands` names (`DanglesExactly`, `RunDanglesExactly`, `CopyDangles`), and never where
  no reference is copied (`NeverDangles`).
- The member iterator of a union never moves in the struct check, which takes every struct that leads to a union
  for a recursive one and ends the process (`TypeGraph.CheckStruct`, `ChecksUnion`).
- The struct check reads the first field of a struct without fields (`TypeGraph.CheckStruct`, `ChecksNoField`).
- A field whose union type has no bytes, or whose type has no size or alignment case, ends the process
  (`LayoutPreparation.TypeSpace.Prepare`, `PreparesEmptyUnion`); so does a class field of a struct type that
  has not been prepared before (`PrepareClass`).
- `append_field_space` computes an aligned start and overwrites it, and adds the size twice when it was
  not aligned (`StaticFields.StaticFieldsAlignedExactly`).
- A path that is only a namespace when its import is looked up is taken to be loaded. All imports of all modules are
  modules after a load if and only if no needed path was a namespace before it, and no needed missing path is a
  proper prefix of a needed missing module at a shorter distance (`Imports.ClosedExactly`, `NamespaceHides`); a
  package beside a module inside it is loaded whole (`PackageLoads`).
- `set_generic_cache` leaves the lookup entry of an overwritten instance (`StoreKeepsInverseExactly`,
  `StaleEntryEvicts`); instantiation never overwrites.

## Model

| member | source | states |
|---|---|---|
| `GcWalk.GcWalkContext.RemoveFromCurGcset` | slake/rt/gc_heapless.cc:602-609 | unlinks an object from its neighbours and from nothing else |
| `GcWalk.GcWalkContext.PushWalkable` | slake/rt/gc_heapless.cc:649-657 | the object becomes the head of the walkable list, and the unwalked list no longer begins with it |
| `GcWalk.GcWalkContext.PushObject` | slake/rt/gc_heapless.cc:611-634 | an unwalked object becomes ready and moves to the walkable list, any other stays; the five lists stay well-formed, disjoint and of matching status; it fails exactly on a pointer to a freed object |
| `GcWalk.GcWalkContext.Promote` | slake/rt/gc_heapless.cc:616-626 | the exact pointer, status and lock writes of moving an unwalked object |
| `GcWalk.GcWalkContext.GetWalkableList` | slake/rt/gc_heapless.cc:640-647 | the whole walkable list is detached as the next batch; no status changes |
| `GcWalk.GcWalkContext.BeginWalk` | slake/rt/gc_heapless.cc:138-146 | the next object of the batch counts as walked and is alone on no list |
| `GcWalk.GcWalkContext.PushRefs` | slake/rt/gc_heapless.cc:138-544 | every reference is pushed; fails exactly when one of them is dangling; nothing else changes status |
| `GcWalk.GcWalkContext.MoveToWalked` | slake/rt/gc_heapless.cc:99-106 | the walked object leaves the walkable list for the walked one and its lock, taken when it was pushed, is released |
| `GcWalk.GcWalkContext.GcWalk` | slake/rt/gc_heapless.cc:138-544 | one walk keeps the list invariant, walks exactly this object, leaves its successors not unwalked, and fails exactly when one of them is dangling |
| `GcMark.Enlist` | slake/rt/gc_heapless.cc:740-775 | each object of the collected list starts unwalked, on the host list if the host holds it, else on the unwalked list |
| `GcMark.EnlistHost` | slake/rt/gc_heapless.cc:746-756 | the pointer writes of putting an object on the host list |
| `GcMark.PushHosts` | slake/rt/gc_heapless.cc:778-781 | exactly the host-referenced objects of the list become ready |
| `GcMark.PushRoots` | slake/rt/gc_heapless.cc:783-801 | exactly the roots of the cache directory, the contexts and the root object become ready; fails exactly when one is freed; which these are is what RootsExactly says |
| `GcMark.MarkLoop` | slake/rt/gc_heapless.cc:803-825 | the batches of ready objects run out (measure: the objects not walked yet) with no object left ready and walked objects closed under reference |
| `GcMark.WalkedIsReach` | slake/rt/gc_heapless.cc:803-825 | a sound and complete walk is exactly the reachable set |
| `GcMark.Mark` | slake/rt/gc_heapless.cc:735-825 | marking completes exactly when nothing reachable is freed, and then walks exactly the objects reachable from the root set, cycles and persistent objects included; the end object is the last of the list |
| `GcRoots.RootsExactly` | slake/rt/gc_heapless.cc:778-801 | a collection starts from exactly both sides of every entry of the cache directory, every thread's context, unless the runtime is being destroyed the root object and the active contexts, and what of the collected list the host holds |
| `Reachability.ReachSetIsLeast` | slake/rt/gc_heapless.cc:803-825 | the reference notion of reachability is the least closed set that holds the roots |
| `GcSweep.UnlinkSameGen` | slake/rt/gc_heapless.cc:878-898 | taking one object off the doubly linked generation list leaves the others in order, with head and end pointer right |
| `GcSweep.Dealloc` | slake/runtime.cc:172-178 | deallocation is once only and never takes more bytes than are allocated: the assertion in release holds |
| `GcSweep.PoolAlloc.Alloc` | slake/runtime.cc:137-146 | the byte account grows by the size |
| `GcSweep.PoolAlloc.Release` | slake/runtime.cc:172-178 | the byte account shrinks by the size |
| `TypeDefs.CompareIsLex` | slake/obj/typedef.cc:696-870 | the comparator of type definitions is the order of what it reads, element by element; it decides any two definitions but tuples of different sizes |
| `TypeDefs.SameExactly` | slake/obj/typedef.cc:696-870 | the comparator calls two definitions the same exactly when they are of one kind with the same types, modifiers, names, lists and flags, or two tuples of which the left begins the right |
| `TypeRefs.SameTypesExactly` | slake/type.cc:215-231 | two types compare the same exactly when they are the same, with the same modifiers: basic types by what they are, all others by their definition as well |
| `TypeDefs.BeginsExactly` | slake/obj/typedef.cc:823-837 | what is read of one definition begins what is read of another exactly for two tuples of which the smaller begins the larger |
| `TypeDefs.OrdersExactly` | slake/obj/typedef.cc:696-870 | on a set of definitions the comparator always answers, is antisymmetric and transitive and calls only like definitions the same, exactly when no tuple of the set begins a larger one |
| `TypeDefs.EqualSizesOrdered` | slake/obj/typedef.cc:823-837 | so whenever all its tuples are of one size |
| `TypeDefs.TupleBeginsTuple` | slake/obj/typedef.cc:823-837 | the tuple (A) is the same as (A, B) and as (A, C), which differ, and (A, B) against (A) reads past the end |
| `GcTypeDefs.CompareTypeDefs` | slake/obj/typedef.cc:696-870 | the comparison on heap objects is that of what they stand for, and dereferences only what is live |
| `GcTypeDefs.ComparedByKey` | slake/obj/typedef.cc:696-870 | two definitions are decided both ways exactly when neither reading begins the other, and then are the same exactly when the readings are |
| `GcTypeDefs.SameInHeapExactly` | slake/obj/typedef.cc:696-870 | so for definitions in the heap, in terms of the objects that they refer to: two classes are two types, wherever their objects lie |
| `TypeSearch.DescendsExactly` | slake/runtime.cc:610-630 | in every search tree of every shape, with the entries on either side of each comparison, a descent answers rightly if and only if no entry begins, or is begun by, what is searched for |
| `TypeSearch.DescendsToShorter` | slake/runtime.cc:610-630 | where an entry begins what is searched for, every descent takes that entry for it, or reads past its end, by the side the entries are on |
| `TypeSearch.DescendsToLonger` | slake/runtime.cc:610-630 | where it begins entries itself, every descent reads past its end, or takes one of them for it |
| `TypeSearch.SortedApart` | slake/runtime.h:273 | only entries none of which begins another make a search tree |
| `TypeSearch.Arrange` | slake/runtime.h:273 | and any such entries make one |
| `TypeSearch.WrongEntryFound` | slake/runtime.cc:618-620 | whichever side the entries are on, there is a set of one tuple and another tuple the search for which finds it, so that a removal takes the wrong one out |
| `GcTypeDefs.Search` | slake/runtime.cc:610-616 | a descent in the search tree of the set, of any shape and whichever side the entries are compared on: it answers rightly exactly when the comparator orders the definition among all entries, and otherwise has found an entry of another reading or read past the end of a tuple |
| `GcTypeDefs.UnregisterTypeDef` | slake/runtime.cc:618-620 | takes out the entry that the search finds, never reading a freed object while type definitions go first: exactly the one that compares the same when the comparator orders the definition among the entries, and otherwise one of another reading, unless it reads past an end |
| `GcSweep.SweepOne` | slake/rt/gc_heapless.cc:863-904 | one deletion keeps list, end pointer, byte account and object count consistent |
| `GcSweep.SweepTypeDefs` | slake/rt/gc_heapless.cc:839-911 | the first sweep deletes exactly the unreachable type definitions and removes exactly those that compare the same from the interned ones, provided each search answers rightly; it unlinks them from the unwalked list only if the head of that list is no type definition |
| `GcSweep.SweepAll` | slake/rt/gc_heapless.cc:863-916 | the second sweep deletes all that is left, each once |
| `GcSweep.HandOver` | slake/rt/gc_heapless.cc:920-935 | every walked object gets the new generation, is unlinked and unwalked; no other object moves |
| `GcCollect.HeadFreed` | slake/rt/gc_heapless.cc:844-865 | the second sweep starts on a freed object exactly when the unwalked list began with a type definition |
| `GcCollect.SweptInTwo` | slake/rt/gc_heapless.cc:839-918 | the two sweeps together delete every unmarked object exactly once |
| `GcCollect.AfterMark` | slake/rt/gc_heapless.cc:803-845 | after marking, the unwalked list is the unreachable part of the collected list in reverse order and the walked list is the reachable set |
| `GcCollect.Sweep` | slake/rt/gc_heapless.cc:839-918 | both sweeps succeed exactly when the searches answer rightly and the unwalked list does not begin with a type definition; they delete it exactly and count what they delete |
| `GcCollect.GcSerial` | slake/rt/gc_heapless.cc:729-936 | a collection completes exactly when no reachable object is freed, the last unreachable object of the list is no type definition, and every search for a type definition deleted answers rightly; then it deletes exactly the unreachable objects of its list, keeps the order of the others, sets end pointer, count, table, bytes and generations |
| `GcRuntime.Runtime.constructor` | slake/runtime.cc:571-582 | a new runtime satisfies the invariant |
| `GcRuntime.Runtime.AddObject` | slake/runtime.cc:632-646 | the object becomes the head of the young list |
| `GcRuntime.Runtime.NewObject` | slake/runtime.cc:137-146 | allocation and registration keep the invariant: lists, counts and byte totals of both generations |
| `GcRuntime.Runtime.Hold` | slake/obj/object.h:226-228 | taking a host reference keeps the invariant |
| `GcRuntime.Runtime.Release` | slake/obj/object.h:230-233 | so does giving one back, of which there must be one |
| `GcRuntime.Runtime.RegisterTypeDef` | slake/runtime.cc:622-630 | a definition is interned exactly when the comparator orders it among the interned ones and none is like it; otherwise the process ends, for a definition that compares the same, like it or not, or a tuple is read past its end; the invariant is kept |
| `GcRuntime.Runtime.CollectYoung` | slake/rt/gc.cc:32-33 | the young pass completes exactly when Collectable and Searchable hold; each abnormal end names the one that does not |
| `GcRuntime.Runtime.MergeYoung` | slake/rt/gc.cc:35-52 | the survivors in order, followed by the persistent objects, are the new persistent list; all young bytes become persistent |
| `GcRuntime.Runtime.CollectPersistent` | slake/rt/gc.cc:54-57 | the persistent pass completes exactly when Collectable and Searchable hold and leaves exactly the reachable objects in order |
| `GcRuntime.Runtime.YoungPass` | slake/rt/gc.cc:32-52 | the young pass, with what it deletes and whether the full pass is due and can complete, all in terms of the state before |
| `GcRuntime.Runtime.FullPass` | slake/rt/gc.cc:54-60 | the second pass and the new limit: half again as much as is left |
| `GcRuntime.Runtime.Gc` | slake/rt/gc.cc:27-80 | a collection completes exactly under a condition on the state before it; then the runtime is valid again, the young list is empty, and the persistent list, type table and limits are exactly determined |
| `GcProperties.MergedIs` | slake/rt/gc.cc:32-52 | what is persistent after the young pass: the reachable young objects and all persistent ones |
| `GcProperties.HeldNeverDeleted` | slake/rt/gc_heapless.cc:740-781 | an object that the host holds is never deleted |
| `GcProperties.FullGcExact` | slake/rt/gc.cc:54-60 | a completed full collection leaves exactly the reachable objects |
| `GcRoots.RootedStays` | slake/rt/gc_heapless.cc:735-825 | whether the full pass is due or not, every live object stays to which a way of references leads from an original or an instance of the cache directory, a thread's context, or, while the runtime is not being destroyed, the root object or an active context |
| `GcRoots.StaysExactly` | slake/rt/gc_heapless.cc:735-909 | what stays is exactly what such ways lead to, or ways from an object that the host holds: from the young ones in the young pass, which keeps all persistent objects, and from any in the full pass, where that comes to its end |
| `GcProperties.DanglingExactly` | slake/rt/gc_heapless.cc:740-801 | the full pass meets a dangling pointer exactly when the young pass, whose roots hold no persistent host reference, deleted something behind one |
| `GcProperties.LeftAtTheEnd` | slake/runtime.cc:584-604 | without roots a full collection leaves nothing exactly when the host holds nothing |
| `GcProperties.Destroy` | slake/runtime.cc:584-604 | the assertion that both lists are empty after the last collection holds exactly when the host holds no object |
| `GcProperties.EvictedExactly` | slake/runtime.cc:618-620 | when the searches answer rightly, an interned definition is lost in the young pass exactly when some unreachable young one, itself or a duplicate, compares the same |
| `GcProperties.InternedTableExact` | slake/runtime.cc:610-630 | with every young definition interned the table loses exactly the deleted ones |
| `GcProperties.DeadTypeDefFaults` | slake/rt/gc_heapless.cc:847-901 | a collection whose only unreachable object is a type definition touches freed memory |
| `GcProperties.HeldObjectDangles` | slake/rt/gc_heapless.cc:740-801 | an object held by the host can be left referring to a deleted one |
| `GcProperties.EqualTypeDefEvicts` | slake/runtime.cc:618-620 | sweeping an unregistered duplicate evicts the live definition it equals |
| `GcProperties.TupleDisorders` | slake/obj/typedef.cc:823-837 | a collection that deletes the tuple (A) while (A, B) is interned and held: the search for the one finds the other, or reads past an end |
| `Cfg.BoundariesAre` | slake/opti/cfg/divide.cc:12-53 | the boundaries are exactly the targets and the offsets after terminators, except after a final RET |
| `Cfg.BoundariesExactly` | slake/opti/cfg/divide.cc:12-53 | blocks begin exactly at the operands of jumps and the last two of branches, after jumps and branches, and after every return but the last instruction |
| `Cfg.CollectBoundaries` | slake/opti/cfg/divide.cc:12-53 | the first malformed instruction is reported, or all boundaries are collected |
| `Cfg.LabelsAre` | slake/opti/cfg/divide.cc:55-70 | every boundary gets a label: its position, one less if 0 is itself a boundary |
| `Cfg.NumberBlocks` | slake/opti/cfg/divide.cc:55-70 | computes those labels |
| `Cfg.LabelsCover` | slake/opti/cfg/divide.cc:100-110 | every target has a label to be looked up |
| `Cfg.LastBoundary` | slake/opti/cfg/divide.cc:77-86 | all blocks are in bounds exactly when all targets are at most the instruction count |
| `Cfg.CutBlock` | slake/opti/cfg/divide.cc:80-114 | one block: the rewritten instructions between two boundaries |
| `Cfg.CutAll` | slake/opti/cfg/divide.cc:77-118 | all blocks |
| `Cfg.Divide` | slake/opti/cfg/divide.cc:6-121 | reports exactly the programs with a malformed jump, branch or return, and the first of these; otherwise divides exactly the programs whose targets are at most the instruction count, into their graph |
| `Cfg.BlocksConcatenate` | slake/opti/cfg/divide.cc:77-118 | the blocks in order are the program with only its targets rewritten |
| `Cfg.NothingInside` | slake/opti/cfg/divide.cc:77-86 | no target lies strictly inside a block |
| `Cfg.TerminatorsLast` | slake/opti/cfg/divide.cc:12-118 | JMP, BR and RET are only ever the last instruction of a block |
| `CfgSemantics.LabelsRightExactly` | slake/opti/cfg/divide.cc:55-70 | every rewritten target names the block that begins at the old target exactly when instruction 0 is no target next to others |
| `CfgSemantics.OnlyTargetsChange` | slake/opti/cfg/divide.cc:77-118 | the blocks in order have the program's instructions, each with its opcode, output, source location and operands, but for the targets of jumps and branches, which have become labels of blocks: of those that begin there, if instruction 0 is no target next to others |
| `CfgSemantics.SettleKeepsOffset` | slake/opti/cfg/divide.cc:77-118 | falling through block ends, empty blocks included, stays at the same offset of the program |
| `CfgSemantics.StepSimulates` | slake/opti/cfg/divide.cc:12-118 | one step of the graph corresponds to one step of the program |
| `CfgSemantics.GraphSimulates` | slake/opti/cfg/divide.cc:12-118 | after any number of steps from the start the graph and the flat program are at corresponding instructions in the same state, or have returned alike, or have run off the end |
| `CfgSemantics.CheckTerminalInstructions` | slake/opti/cfg.cc:21-37 | accepts exactly the graphs whose blocks all end in a terminator, and else reports the first block that does not, with the offset of its last instruction; an empty block has no last instruction |
| `CfgSemantics.ChecksEmptyBlock` | slake/opti/cfg.cc:21-26 | the program that only jumps to its end is divided, and its graph then has such a block looked at |
| `CfgSemantics.NeverFallsThrough` | slake/opti/cfg.cc:21-37 | an accepted graph never reaches the end of a block |
| `CfgSemantics.AcceptedExactly` | slake/opti/cfg.cc:21-37 | the programs whose graphs are accepted: not empty, ending in RET, instruction 0 no target, and every target after a terminator |
| `CfgSemantics.AcceptedRunsLikeProgram` | slake/opti/cfg.cc:21-37 | accepted graphs run exactly like their programs, and never fall through |
| `CfgSemantics.BackwardDiverges` | slake/opti/cfg/divide.cc:55-70 | a program that branches to 0 and to 2 returns after two steps, its graph does not |
| `BcBuilder.BcBuilder.constructor` | slake/util/bc_builder.h:19 | a new builder is valid |
| `BcBuilder.BcBuilder.AllocLabel` | slake/util/bc_builder.h:63-67 | a label never used before, with no offset yet |
| `BcBuilder.BcBuilder.SetLabelOff` | slake/util/bc_builder.h:69-71 | the label's offset, nothing else |
| `BcBuilder.BcBuilder.EmitIns` | slake/util/bc_builder.h:73-124 | the program with symbolic labels grows by exactly this instruction |
| `BcBuilder.BcBuilder.Commit` | slake/util/bc_builder.h:126-132 | fails exactly on a label that was never allocated; otherwise opcodes, registers and numbers stay, and every label operand, no other, has become its label's offset |
| `BcBuilder.BcBuilder.SetFn` | slake/util/bc_builder.h:22-25 | commits the old function before turning to the new one |
| `BcBuilder.CommittedRunsAlike` | slake/util/bc_builder.h:126-132 | the committed program runs step for step like the program with symbolic labels |
| `BcBuilder.SecondCommitIdle` | slake/util/bc_builder.h:126-132 | another commit changes nothing |
| `BcBuilder.UnsetLabelTerminates` | slake/util/bc_builder.h:63-132 | a run of any assembled program that comes to a jump to a label whose offset was never set ends the process there |
| `BcBuilder.Assemble` | slake/util/bc_builder.h:63-132 | any interleaving of allocating, setting and emitting yields the emitted instructions with their opcodes, registers and numbers, and with the final offset for each label, or fails exactly when it uses an unknown label |
| `BcBuilder.OffsetBeforeOrAfterUse` | slake/util/bc_builder.h:69-71 | setting a label's offset before or after the instruction that uses it makes no difference |
| `StackMemory.AlignedExactly` | slake/obj/context.cc:23-27 | the misalignment of the address is added to the size, so an aligned allocation yields an aligned block exactly when the size is a multiple of the alignment |
| `StackMemory.StoreExactly` | slake/obj/context.cc:5-13 | writing a cell leaves exactly the other cells that have no byte of it |
| `StackMemory.StoreAbove` | slake/obj/context.cc:5-13 | writing above all live cells adds one and disturbs none |
| `StackMemory.StoreOver` | slake/rt/var_access.cc:976-1107 | writing over a cell of the same extent replaces that one and disturbs no other |
| `FrameSpec.StepKeepsWf` | slake/rt/exec.cc:1452-1529 | every instruction, whether it succeeds or fails, keeps the abstract stack well-formed: bases rise, registers exist, all inside the buffer |
| `FrameSpec.EnterMeans` | slake/rt/exec.cc:1452-1472 | ENTER adds a minor frame without variables, which begins where the stack was, and changes nothing else |
| `FrameSpec.LocalMeans` | slake/rt/exec.cc:1430-1447 | LVAR makes one register refer to a place above everything before, with room for the variable, and puts it down in the innermost minor frame |
| `FrameSpec.PushMeans` | slake/rt/exec.cc:1501-1529 | PUSHARG puts one argument more on the stack, where the arguments of the next call then are |
| `FrameSpec.CallMeans` | slake/rt/exec.cc:1530-1608 | a call hands the pushed arguments over; the function called begins where the stack was, with its own number of registers and nothing else |
| `FrameSpec.CallEffect` | slake/rt/exec.cc:117-328 | a failed call changes nothing; a successful one pushes exactly one frame and uses up the pushed arguments |
| `FrameSpec.StepInside` | slake/rt/exec.cc:1452-1529 | no instruction touches outer minor or major frames as long as the current ones are not left |
| `FrameSpec.LeaveMeaning` | slake/rt/exec.cc:1473-1499 | LEAVE n leaves exactly n minor frames, or stops at the function's first; the stack is where it was at the n-th ENTER, exactly the registers of local variables of the left frames are Invalid, all else is as before |
| `FrameSpec.RunLeavesOutside` | slake/rt/exec.cc:1452-1529 | neither does any run |
| `FrameSpec.ReturnRestores` | slake/rt/exec.cc:1784-1824 | whatever a callee ran, its return restores the stack top, the frames and the caller, but for the used arguments and for the result register, which holds what the returned register held |
| `FrameSpec.LeaveRestores` | slake/rt/exec.cc:1452-1499 | whatever ran since an ENTER, the matching LEAVE restores the stack top, the outer minor frames and all outer functions |
| `FrameSpec.ReturnsExactly` | slake/rt/exec.cc:1795-1819 | the value of a register can be returned exactly when both it and the result register are below the callee's own register count, the second of which should be the caller's |
| `FrameSpec.ReturnRefused` | slake/rt/exec.cc:1795-1819 | a caller with two registers cannot get the value of the only register of its callee into its second one |
| `FrameSpec.RunStaysAbove` | slake/rt/exec.cc:1452-1824 | in every run inside a minor frame or a call the stack top stays above where that was entered |
| `FrameSpec.ArgumentsStayExactly` | slake/rt/exec.cc:1473-1529 | pushed arguments stay alive until the call exactly as long as no LEAVE goes below the point where they were pushed |
| `FrameSpec.ReleasedArgument` | slake/rt/exec.cc:1473-1529 | with such a LEAVE the callee's argument lies inside the area of the callee's own frame |
| `RegisterBanks.AllocRegisters` | slake/rt/exec.cc:182-303 | the banks of a function in order, each with the size and alignment of its kind, and the offset noted for each; or overflow |
| `RegisterBanks.InBankExactly` | slake/rt/exec.cc:512-522 | of the registers of a kind only the first is in its bank, for the address gets lower as the register's number gets higher; of the kind Any, whose offset is that of the Object bank if there is one, only if there is none |
| `RegisterBanks.FirstObjectOut` | slake/rt/exec.cc:192-198 | the first Object register, for which no offset is noted, is taken to be beyond the upper end of the stack |
| `RegisterBanks.InBanksExactly` | slake/rt/exec.cc:182-303 | every register is in its own bank if and only if the function has no Object register and no two of one kind |
| `RegisterBanks.RegistersApart` | slake/rt/exec.cc:512-522 | and then no byte belongs to two registers, and all are between the old top of the stack and the new one |
| `RegisterBanks.RegistersAreBlocks` | slake/rt/exec.cc:182-303 | and each register is a block by itself among those that the making of a frame puts on the stack |
| `RegisterBanks.NextBlockOverlaps` | slake/rt/exec.cc:512-522 | otherwise, where the last bank has more than one register, whatever is allocated next shares a byte with the second exactly when fewer bytes than a register has are left out for its alignment |
| `FrameChains.MinorEntered` | slake/rt/exec.cc:1452-1472 | an entered minor frame extends the pointer chain of its function and the abstract frames alike |
| `FrameChains.MinorLeft` | slake/rt/exec.cc:1492-1496 | leaving it cuts the chain alike |
| `FrameChains.RecordAdded` | slake/rt/exec.cc:37-48 | so does a new alloca record |
| `FrameChains.FrameLinked` | slake/rt/exec.cc:315-325 | a linked major frame extends the chain of frames, whose offsets strictly increase |
| `FrameChains.FrameUnlinked` | slake/rt/exec.cc:330-341 | an unlinked one shortens it |
| `Frames.Context.StackAlloc` | slake/obj/context.cc:5-13 | moves the top by the size, or changes nothing exactly when that does not fit |
| `Frames.Context.AlignedStackAlloc` | slake/obj/context.cc:23-27 | fails exactly when the size and the misalignment of the address do not fit; otherwise takes less than an alignment more than the size, and ends at a multiple of it exactly when the size is one |
| `Frames.Context.CellsAligned` | slake/obj/context.cc:23-27 | every frame, minor frame, record, argument, register bank and variable on the stack is at an address that is a multiple of its alignment |
| `Frames.Context.AllocAllocaRecord` | slake/rt/exec.cc:37-48 | links a record for the register into the innermost minor frame, or changes nothing |
| `Frames.Context.WriteVar` | slake/rt/var_access.cc:976-1107 | a value of the variable's type becomes its bytes, and no other byte of any variable changes; any other value is refused and nothing changes |
| `Frames.BytesWritten` | slake/rt/var_access.cc:976-1107 | writing a variable sets the bytes in its own place, and every other byte of every variable stays |
| `Frames.Context.ReadVar` | slake/rt/var_access.cc:292-436 | reads back from its bytes the value written last |
| `Frames.Context.AllocVar` | slake/rt/exec.cc:344-461 | a local variable's bytes, tag and record, or nothing |
| `Frames.Context.AddLocalVar` | slake/rt/exec.cc:1430-1447 | LVAR refines its abstract step, and the new variable holds the default value where the step says that it is |
| `Frames.Context.InvalidateRecords` | slake/rt/exec.cc:1481-1490 | exactly the registers that the chain of records names become Invalid |
| `Frames.Context.Enter` | slake/rt/exec.cc:1452-1472 | ENTER on bytes and chained offsets refines its abstract step and disturbs no live block |
| `Frames.Context.LeaveMinorFrame` | slake/rt/exec.cc:1476-1496 | leaving one minor frame refines its abstract step; every variable and argument below the new top is as it was |
| `Frames.Context.Leave` | slake/rt/exec.cc:1473-1499 | so does LEAVE, for any number of them |
| `Frames.Context.PushArg` | slake/rt/exec.cc:1501-1529 | PUSHARG refines its abstract step, and the value is on the stack |
| `Frames.Context.AllocFrame` | slake/rt/exec.cc:128-308 | frame, first minor frame and register banks, one above the other; or nothing |
| `Frames.Context.AllocBank` | slake/rt/exec.cc:175-308 | a bank of registers with its size and alignment, none if there are none, or overflow |
| `Frames.Context.CreateMajorFrame` | slake/rt/exec.cc:117-328 | refines its abstract step, with the register banks as the last blocks on the stack; on overflow the context is unchanged |
| `Frames.Context.LeaveMajorFrame` | slake/rt/exec.cc:330-342 | both assertions hold, the frames are those before but the last, the current one is the caller's, the top is where it was when the frame was made, and every variable and argument below it is as it was |
| `Frames.Context.Call` | slake/rt/exec.cc:1530-1608 | CALL refines its abstract step |
| `Frames.Context.Ret` | slake/rt/exec.cc:1784-1824 | RET and RETVOID refine their abstract step, with the same said of frames, variables and arguments |
| `Frames.Context.WriteReg` | slake/rt/exec.cc:1826-1830 | an instruction that writes a register changes that register of the current function and nothing else |
| `Frames.Context.CallWith` | slake/rt/exec.cc:1501-1608 | after pushing any registers and a call the callee has exactly their values as arguments, last pushed first |
| `Frames.Context.ReadArg` | slake/rt/exec.cc:1413-1426 | the i-th argument reads as pushed; an index out of range is refused |
| `Frames.Context.Execute` | slake/rt/exec.cc:1452-1824 | every instruction refines its abstract step, keeps chains and counts valid and everything on the stack aligned, and keeps every variable and argument that the stack still holds afterwards |
| `Frames.Context.Run` | slake/rt/exec.cc:1452-1824 | so does every run, up to the first instruction that fails; what lies below the lowest point of the stack top is in the end as it was |
| `Frames.Context.StoreVar` | slake/rt/exec.cc:645-659 | STORE through the reference in a register refines its step on the variables, and every other variable stays |
| `Frames.Context.LoadVar` | slake/rt/exec.cc:577-590 | so does LVALUE |
| `Frames.Context.ExecuteVar` | slake/rt/exec.cc:577-1824 | so does every instruction: the variables below the new stack top are on the stack with their values, and a new one with its default |
| `Frames.Context.RunVars` | slake/rt/exec.cc:577-1824 | so does every safe run, with STORE and LVALUE among its instructions, up to the first that fails or a return of the outermost frame; all is aligned in the end |
| `FrameVariables.StaysWhileAlone` | slake/rt/exec.cc:577-1824 | a variable that the stack holds throughout a run, and that no instruction of it writes, keeps its value |
| `FrameVariables.ReadsAsLastWritten` | slake/rt/exec.cc:577-659 | after a STORE and any run that leaves the variable alone, LVALUE reads what the STORE has written, through whichever register refers to it by then |
| `FrameVariables.StepAnchored` | slake/rt/exec.cc:577-1824 | an instruction that copies no reference keeps every reference in a register that its own minor frame invalidates when it is left, and every variable a value of its type |
| `FrameVariables.NeverDangles` | slake/rt/exec.cc:577-1824 | so in no run that copies no reference does a register refer to a variable that is gone |
| `FrameVariables.SafeWithoutCopies` | slake/rt/exec.cc:577-1824 | and the source defines what every instruction of such a run does |
| `FrameVariables.DanglesExactly` | slake/rt/exec.cc:577-1824 | an instruction makes a reference dangle if and only if it is a LEAVE that gives up a variable to which a register refers that none of the variables given up was made in, a RET of a reference to a variable of its own function, or one that brings in a reference to none |
| `FrameVariables.RunDanglesExactly` | slake/rt/exec.cc:577-1824 | in a run no reference dangles at any time if and only if none of its instructions is such a one |
| `FrameVariables.SafeWithoutStranding` | slake/rt/exec.cc:577-1824 | and then the source defines what each of them does |
| `FrameVariables.CopyDangles` | slake/rt/exec.cc:1473-1499 | a run that copies a reference to another register, after which that register refers to a variable that LEAVE has given up |
| `Frames.Context.CallAndRun` | slake/rt/exec.cc:1413-1824 | a call that pushes registers, and any run that does not leave it: the caller's variables hold what they did, and back in the callee its arguments are those passed |
| `Frames.OutsideReadsAlike` | slake/rt/exec.cc:1452-1824 | whatever runs inside a minor frame or a call, every variable and argument from before it was entered reads as it did |
| `TypeGraph.ExploredExactly` | slake/obj/class.cc:358-393 | a walk that refuses a node already on its way succeeds exactly when no path comes back to itself or meets a refused node |
| `TypeGraph.Step` | slake/obj/class.cc:358-393 | each step of the explicit stack keeps its invariant and reduces the work left, though finished nodes are walked again |
| `TypeGraph.OnStack` | slake/obj/class.cc:365-370 | the search of the frames for the current interface |
| `TypeGraph.CheckInterface` | slake/obj/class.cc:354-393 | ends, and normally exactly when no inheritance path returns to itself and all lead to interfaces; each abnormal end names its reason |
| `TypeGraph.CheckStruct` | slake/obj/class.cc:513-628 | ends, and normally exactly when no struct that it leads to contains itself by value, is empty, or has a union among its fields, shared structs accepted; each abnormal end names its reason |
| `TypeGraph.ChecksNoField` | slake/obj/class.cc:566-572 | a struct without fields makes the check read a first field |
| `TypeGraph.ChecksUnion` | slake/obj/class.cc:574-600 | a struct with a field of a union type, which contains nothing of the struct, ends the check as if it were recursive |
| `TypeGraph.NeverEnds` | slake/rt/new.cc:249-367 | a walk that does not look for cycles never ends from a node that leads to one |
| `Layouts.LaidExactly` | slake/rt/new.cc:86-120 | laying out succeeds exactly when every field that is not static has an extent, and then gives the layout the fields determine: base first, each field at the first aligned offset after the one before, largest alignment |
| `Layouts.LayoutUnique` | slake/rt/new.cc:86-120 | no other layout fits that description |
| `Layouts.LayoutSound` | slake/rt/new.cc:97-119 | all offsets aligned, fields in order inside the total, after the base |
| `Layouts.FieldsAligned` | slake/rt/new.cc:97-119 | an object placed at a multiple of its alignment has every field at a multiple of that field's alignment |
| `Layouts.FieldHoldsValue` | slake/runtime.cc:360-504 | the extent of a field is the number of bytes of whatever value it holds, at a multiple of that, and a byte more where it may be null |
| `Layouts.FieldHoldsObject` | slake/runtime.cc:360-504 | a struct or an item of a union has the extent of its layout, a union that of its items |
| `LayoutPreparation.PreparedApart` | slake/rt/new.cc:97-119 | in every prepared object all fields are inside it and no byte belongs to two |
| `LayoutPreparation.PreparedExactly` | slake/rt/new.cc:86-120 | the layout of a prepared struct: its fields that are not static in order, the first at 0, each other at the first multiple of its alignment after the one before, nothing after the last |
| `Primitives.SizeOf` | slake/runtime.cc:360-504 | size and alignment of the primitive types agree: 1, 2, 4 or 8; RoundTrip, BytesAreValues and NoSmallerSize say which |
| `Primitives.RoundTrip` | slake/runtime.cc:360-431 | every value of a type has exactly as many bytes as the type's size, which say which value it is |
| `Primitives.BytesAreValues` | slake/runtime.cc:360-431 | and any such bytes are a value, but for a truth value |
| `Primitives.NoSmallerSize` | slake/runtime.cc:360-431 | however bytes are read, no smaller of the four sizes has room for all values of the type |
| `LayoutPreparation.WidestCovers` | slake/rt/new.cc:315-328 | the extent of a union covers its items and is attained by one |
| `LayoutPreparation.TypeSpace.constructor` | slake/obj/class.h:50-60 | nothing is cached at first |
| `LayoutPreparation.ContainsExactly` | slake/rt/new.cc:249-367 | what the searches walk: a struct or an item of a union leads to what its fields are, a union to its items, a class to nothing |
| `LayoutPreparation.TypeSpace.InitObjectLayout` | slake/rt/new.cc:86-120 | computes the layout of the fields after a base, or stops at a field without extent |
| `LayoutPreparation.TypeSpace.MeasureUnion` | slake/rt/new.cc:317-324 | computes the extent of a union |
| `LayoutPreparation.TypeSpace.Finish` | slake/rt/new.cc:296-328 | the end of a node lays out what has no layout yet and changes no other; it fails exactly on a field without extent |
| `LayoutPreparation.WeighsMeans` | slake/runtime.cc:360-431 | a prepared type has bytes exactly when some field below it has |
| `LayoutPreparation.FieldFits` | slake/runtime.cc:360-504 | once its type is prepared, a field has an extent exactly when its type is supported and no union without bytes |
| `LayoutPreparation.TypeSpace.Prepare` | slake/rt/new.cc:249-367 | on a containment graph without cycles the preparation ends; it succeeds exactly when every type reached is fit, and then every type reached by value has its layout, each consistent with those of its parts |
| `LayoutPreparation.CheckAndPrepare` | slake/loader/loader.cc:1283-1285 | checking a struct and then preparing it, over any declarations of structs, unions and classes: the check passes exactly the structs without cycle, empty struct or union below them, no struct is prepared on which that would not end, and the preparation succeeds exactly when all it leads to is fit |
| `LayoutPreparation.EndlessPreparation` | slake/rt/new.cc:249-367 | on a cycle of containment the stack of the preparation never empties, after any number of steps |
| `LayoutPreparation.PreparesEmptyUnion` | slake/runtime.cc:360-431 | a field of a union without items ends the process |
| `LayoutPreparation.TypeSpace.CollectBases` | slake/rt/new.cc:188-210 | the chain of base classes, or a base that is no class |
| `LayoutPreparation.TypeSpace.InitClassLayout` | slake/rt/new.cc:137-156 | the parent's layout, copied, followed by the class's own fields |
| `LayoutPreparation.TypeSpace.PrepareClass` | slake/rt/new.cc:188-228 | every base class is laid out before the class; malformed exactly on a wrong base; ends the process exactly when a class without layout has a field without extent |
| `LayoutPreparation.DerivedExtendsParent` | slake/obj/class.cc:48-78 | a derived layout has its parent's as an exact prefix, and its own fields after the parent's bytes |
| `LayoutPreparation.EndlessBases` | slake/rt/new.cc:192-210 | with bases that never end the chain is collected for ever |
| `StaticFields.FieldStorage.AppendFieldSpace` | slake/obj/module.cc:150-169 | the field begins where the storage ended, aligned or not; the storage grows by the size, or by twice the size and the padding |
| `StaticFields.FieldStorage.ReallocFieldSpaces` | slake/obj/module.cc:175-190 | every field's offset, in order |
| `StaticFields.RoomsApart` | slake/obj/module.cc:150-169 | no two static fields share a byte, and all are inside the storage |
| `StaticFields.StaticFieldsAlignedExactly` | slake/obj/module.cc:150-169 | all static fields start aligned exactly when the sizes before each add up to a multiple of its alignment |
| `StaticFields.StaticFieldMisaligned` | slake/obj/module.cc:150-169 | a byte before a 32-bit field is enough for misalignment |
| `GenericCache.TotalOrder` | slake/obj/generic.cc:107-121 | the comparator is a total order whose zero is equality of the two argument lists |
| `GenericCache.DifferenceOrder` | slake/type.cc:215-231 | the order of single types, lifted to the first difference |
| `GenericCache.CompareArgs` | slake/obj/generic.cc:107-121 | computes the order: length first, then the first difference |
| `GenericCache.Found` | slake/rt/generic.cc:269-279 | because of the order the search finds an entry whenever one with equal arguments is there |
| `GenericCache.PutEntry` | slake/rt/generic.cc:100-109 | inserts, or overwrites the entry with equal arguments |
| `GenericCache.RemoveEntry` | slake/rt/generic.cc:83 | removes the entry with equal arguments, if any |
| `GenericCache.StoreKeepsInverseExactly` | slake/rt/generic.cc:92-120 | storing keeps the lookup table an inverse exactly when nothing was stored under equal arguments |
| `GenericCache.InvalidateKeepsInverse` | slake/rt/generic.cc:77-90 | invalidating keeps it, and forgets exactly that instance |
| `GenericCache.Cache.constructor` | slake/runtime.cc:575-576 | the empty cache |
| `GenericCache.Cache.Find` | slake/rt/generic.cc:269-279 | looks up what the plain map holds |
| `GenericCache.Cache.SetGenericCache` | slake/rt/generic.cc:92-120 | updates the plain map at one key, and leaves no empty table |
| `GenericCache.Cache.InvalidateGenericCache` | slake/rt/generic.cc:77-90 | removes that key, and a table that has become empty |
| `GenericCache.Cache.Instantiate` | slake/rt/generic.cc:269-279 | the instance stored for this original and these arguments, or the new duplicate, which is then stored for them and for no others |
| `GenericCache.SameInstanceExactly` | slake/rt/generic.cc:269-279 | two instantiations return the same instance if and only if they ask for the same original with the same arguments, as long as it has not been destroyed in between: never for two argument lists that differ in any type |
| `GenericCache.Cache.Destroy` | slake/obj/member.cc:20-22 | the destruction of any object keeps the tables inverse |
| `GenericCache.Cache.Run` | slake/rt/generic.cc:77-120 | over any sequence of instantiations and destructions the tables stay inverse, the cache agrees with a plain map, and two instantiations return one instance exactly when they ask for the same and it has not been destroyed in between |
| `GenericCache.StaleEntryEvicts` | slake/rt/generic.cc:108-116 | after two stores under equal arguments the destruction of the first instance evicts the second |
| `Duplication.TaskKeeps` | slake/obj/object.cc:53-63 | one task keeps the copy a faithful partial one: every member copied or asked for exactly once |
| `Duplication.FnsKeep` | slake/obj/fn.cc:302-320 | one more copy leaves every function copied so far with its own overloadings |
| `Duplication.Duplicator.CopyOverloadings` | slake/obj/fn.cc:302-320 | each overloading of the source is copied once, under its signature, as a new object that points back to the new function; all others stay as they were |
| `Duplication.Duplicator.Duplicate` | slake/obj/module.cc:17-62 | a new object like its source, with overloadings of its own if it is a function, and one task for each member |
| `Duplication.Duplicator.AddMember` | slake/obj/module.cc:76-83 | the member under its name, with its parent set |
| `Duplication.Duplicator.Perform` | slake/obj/object.cc:53-63 | one task |
| `Duplication.Duplicator.Exec` | slake/obj/object.cc:41-78 | one round: all tasks of the list; those it leaves ask for members one level deeper |
| `Duplication.CopiedWhole` | slake/obj/object.cc:41-78 | without tasks left the copy is isomorphic to its source, overloadings and their links back included |
| `Duplication.Duplicator.DuplicateObject` | slake/rt/generic.cc:281-291 | rounds until no task is left: it ends, the source and its overloadings are untouched, the copy is isomorphic, all its parts are new, each is held by its own parent alone, and each overloading points back to its own function |
| `Imports.Loader.LoadSingleModule` | slake/loader/loader.cc:1337-1369 | the module at its name, missing parents as namespaces, all else as before |
| `Imports.AddedRegistered` | slake/loader/loader.cc:1337-1369 | what that leaves at every path |
| `Imports.Located` | slake/loader/loader.cc:1233-1246 | a path that is not there is located, and its imports are still to be looked up |
| `Imports.Skipped` | slake/loader/loader.cc:1233-1240 | a path that is there is not |
| `Imports.WayLoaded` | slake/loader/loader.cc:1229-1252 | the end of every way of imports is a loaded module once nothing is left, if none was found to be a namespace by a module loaded before |
| `Imports.NextRound` | slake/loader/loader.cc:1229-1252 | the names of round k are the missing needed paths whose shortest way of imports has k steps, as long as nothing was hidden |
| `Imports.LocatedInRound` | slake/loader/loader.cc:1233-1246 | a path located in round k is at distance k |
| `Imports.LocatedExactly` | slake/loader/loader.cc:1229-1252 | what has been located is exactly what is needed and missing if and only if no needed missing path is a proper prefix of a needed missing module that is closer, the distance of a path being the length of its shortest way of imports |
| `Imports.ClosedExactly` | slake/loader/loader.cc:1229-1252 | every import of every module is a module if and only if no needed path was a namespace before and none is hidden by a closer module inside it, a condition on the repository and the tree before |
| `Imports.Loader.Round` | slake/loader/loader.cc:1233-1247 | one round, names with fewer parts first; what it locates is at the distance of the round; if it collects names it has loaded something, and it fails only on something needed that cannot be found |
| `Imports.Loader.LoadDependencies` | slake/loader/loader.cc:1229-1252 | the rounds end, and only with nothing left to look up or something that cannot be found |
| `Imports.Loader.LoadModule` | slake/loader/loader.cc:1214-1254 | the rounds end, with every import of what was loaded registered, nothing located twice and only what is needed, in an order of imports; exactly what is needed and missing has been located if and only if nothing is hidden, and where nothing is hidden it succeeds if and only if all that is needed and missing can be found; if all modules had their imports before, they have them after if and only if nothing needed was a namespace before and nothing is hidden |
| `Imports.NamespaceHides` | slake/loader/loader.cc:1233-1240 | a load that succeeds and leaves a module, whose file is there, a mere namespace, because a module inside it was loaded first |
| `Imports.PackageLoads` | slake/obj/idref.cc:129-133 | a module and one inside it, both imported, are both loaded, because the shorter name is looked up first |
| `Imports.MisnamedForever` | slake/loader/loader.cc:1229-1252 | a file that imports the path it was found under, which no file registers, leaves that path among the names to be loaded after any number of look-ups, in any order that rounds may take: they never end |

## Left out

- Per-kind cases of `_gc_walk`: every object has a list of references, and walking pushes each; the references of type definitions are fixed once made.
- Allocator reference counts, `replace_allocator`, realloc during object lifetime, the destructible list and its disabled rescans, `remove_object`, and the parallel collector, whose work body is missing.
- Resolving deferred custom type definitions, which changes interned keys in place (slake/runtime.cc:554-569).
- GcTypeDefs.Search: how the tree of the ordered set is balanced, and which side of a comparison its entries are on, is decided in peff, which is not part of this model; both are arbitrary, and the tree may be another for each search.
- GcCollect.GcSerial: what becomes of a collection after a search has answered wrongly is not followed any further; so too in Runtime.Gc.
- Locks other than `gc_spinlock`, and threads: all operations run one after another.
- Wrap-around of label ids, instruction counts and sizes at 32 or 64 bits, except where the stack's offset subtraction and jump operands truncate; sizes and offsets are otherwise unbounded.
- Frames.Context.Run: STORE and LVALUE come in with `RunVars`. Of the other instructions a run has the write of a register (`WRITE`), with any value.
- Frames.Context.Execute: STORE and LVALUE come in with `ExecuteVar`.
- Frames.Context.RunVars: requires that no instruction reads or writes a variable that is gone (`FrameVariables.Safe`), for which the source defines nothing; `SafeWithoutStranding` and `SafeWithoutCopies` show what is enough. References are to local variables; those to fields, arguments and array elements are left out, and so are the typed stores from other banks.
- The rest of the interpreter: no coroutines, native functions, host-supplied arguments (`_fill_args`), exception handlers or MCALL/CTORCALL receivers; the frame made without a function, whose one register is allocated unchecked, is the caller's to set up.
- Frames.Context.Ret: does not model the declared return type, against which the source checks the value and ends the process.
- Frames.Context.AddLocalVar: primitive types that are not nullable; ISize, USize, object, struct, enum and nullable encodings are left out.
- Frames.Context.AllocVar: the same types, likewise.
- Primitives.RoundTrip: a floating point value is its bit pattern, and the lowest byte comes first.
- TypeRefs.SameTypesExactly: types without a definition have none in the model, where the source's comparison does not look at their pointer; the invalid type, whose pointer it compares, is one without.
- Frames.Context.WriteReg: a frame keeps its any-typed registers apart from each other and from all else on the stack, as they would be in their bank; the addresses that the code computes do this only under the condition of `RegisterBanks.InBanksExactly`. So too in every other operation of `Frames.Context` that reads or writes a register.
- Registers of other kinds, program counters across calls, and all arithmetic opcodes.
- The contents of `impl_interface_indices`.
- TypeGraph.CheckStruct: a field whose type is an item of a union is left out, for which an assertion asks for another kind of object than items are (slake/obj/class.cc:535-541).
- Initial data of layouts, written per field index of the class although the layout may start with the parent's fields (slake/rt/new.cc:122-132), field names, and method tables.
- Layouts.LaidExactly: sizes and alignments of a 64-bit host; Any and TempRef, with a size but no alignment or the reverse, count as unsupported.
- LayoutPreparation.TypeSpace.Prepare: requires a containment graph without cycles, which the struct check establishes for structs (`CheckAndPrepare`); on a cycle it goes on for ever (`EndlessPreparation`).
- LayoutPreparation.TypeSpace.PrepareClass: requires base classes that end; `EndlessBases` shows what happens otherwise.
- LayoutPreparation.TypeSpace.CollectBases: requires base classes that end, likewise.
- Generic parameter mapping, type slot substitution, parameter packs and overload regrouping during instantiation.
- The tree inside a `peff::Map`: a table is the sorted list of its entries.
- Duplication.Duplicator.DuplicateObject: classes, interfaces, structs and functions; a module's copy constructor queues each member twice, and type definitions are copied through other tasks. Fields and generic arguments count as data copied by value.
- Duplication.Duplicator.CopyOverloadings: a signature is opaque, and two of one function are taken to be apart: their comparator (slake/obj/fn.cc:272-297) is left out. What an overloading holds besides is data copied by value.
- Duplication.Duplicator.Perform: of the three kinds of tasks only those for members of a module.
- Duplication.Duplicator.Exec: the same.
- Reading module files, and what else loading does after the imports: only names and imports of modules are modelled, and the namespace tree holds nothing but modules and namespaces.
- Imports.Loader.LoadModule: for repositories whose modules register under their import paths (`MisnamedForever` shows why), and for a first module whose name is not yet taken: what inserting a member under a name that is taken does is decided by the hash map of peff, which is not part of this model.
- Out-of-memory results other than stack overflow; JIT, optimiser passes for removed opcodes, exceptions, dump printers.
