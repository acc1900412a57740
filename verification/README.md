# A verified model of the C interpreter's memory and execution

The interpreter runs a C syntax tree over memory in which every byte is typed. Four hand-written
parts carry its invariants, and this project models and proves all four. On top of them it proves what
the interpreter is for: that it computes what C says.

* **Typed tags of a block.** `TagSpec` is the run list that `update_tag_write` maintains, on values,
  proved against a plain map from byte to cell. `TagRuns` is about arrays, `TagAsWritten` about the
  source's own tag updates, and `TagBlock` is the linked list that is changed in place.
* **Red-black tree.** `RbSpec` is insertion, the change of a key and the contract of removal on tree
  values, `RbSearch` the two searches, `RbTrees` the nodes with parent pointers, changed in place, and
  `RbAsWritten` the source's own insertion. `TagSearch` relates the tree to the list of tags.
* **Values.** `Words`, `Numbers`, `Arithmetic`, `Bitwise`, `Values`, `ValueProofs`, `StructAsWritten`, `Sizes`
  and `ZeroReads` are the stored forms and the arithmetic; `MemBlocks` is a block with its bytes and tags;
  `Memory` numbers blocks and follows them over whole runs.
* **Environment and executor.** `Frames` is the stack of variables and the meaning of its index,
  `RefExec` an executor without an index, `Progress`, `Discipline`, `Breaks`, `EvalOrder` and
  `PureExpressions` what holds of it, `Machines` the interpreter's global state with the index,
  `Interp` the interpreter on that state, and `External` the built-in functions.
* **Agreement with C.** `CSemantics` says what C means by a program over `int`, with integers for values and
  no memory at all; `CVariables` and `CArithmetic` relate it to the executor's state and bit patterns,
  `AgreesWithC` proves that the executor does what C says, and `CPrograms` reads off what particular programs
  compute. The programs left out by `FairProgram` are those on which the interpreter is shown to differ: a
  `break` directly in a loop (`Breaks.LeakThroughReturn`), an initialiser with effects
  (`EvalOrder.InitialiserRunsTwice`), an argument that names an earlier parameter
  (`EvalOrder.ArgumentsSeeParameters`), and a variable with the name of a function, which hides it from every
  function called meanwhile (`EvalOrder.VariableHidesFunction`).

Conventions. An error exit, and any step that C++ leaves undefined (a null or marker result that is
dereferenced, a read past the end of a block), is one aborting result. `fuel` bounds the depth of
calls and the rounds of each loop. A C type is an identity that determines its size. A number that
carries only a status has an arbitrary bit pattern, which is the parameter `junk`.

Repairs. These pieces of the source do not do what they are for, and are modelled as intended; the
comments in each file say so too.

* `rbtree::insert` (rbtree.cpp:10, 47-48, 63-77, 83-100): parent pointers are set and kept, the new node
  is red, and a grandparent promoted under a red parent becomes red. `RbAsWritten` keeps the source's
  insertion and proves exactly when it loses no node, and exactly when it also keeps the balance.
* `rbtree::remove` (rbtree.cpp:144-204), which deletes a node that stays linked: modelled by any removal that
  leaves a balanced tree of the other nodes in order.
* `findBelow` (rbtree.cpp:105, 110): for the tags of a block, offsets are compared in full and not narrowed
  to `int`. `RbSearch` has both searches and says exactly when the narrowing does no harm; `RbTrees` and
  `TagAsWritten` search as the source does.
* `deal_with_end` (mem.cpp:92, 125-133, 139-140): `next` is read before the node is deleted, the
  remainder of a cut run keeps its type, size and count, and the links on both sides are set.
* `update_tag_write` (mem.cpp:202, 211-227): what is left of a run after a write keeps all its elements,
  and a run never has count 0. `TagAsWritten` keeps these lines and those of `deal_with_end`, and the
  source's search, and proves exactly when they are right on a tree that indexes the list.
* Loading a number (types.h:252-263) recognises the tag of its own kind; as written it is the tag of
  `int` for every kind, and `Numbers.LoadAfterStoreAsWritten` says exactly for which kinds that works. So as
  written `malloc` aborts on every size under its own tag (`External.MallocAsWritten`).
* Loading a struct (types.cpp:586, 604-645): the tag is read at the struct's own offset, and the members
  one after the other. `StructAsWritten` keeps the source's loop, which does not advance, and its way of
  reading numbers, and proves exactly which structs it reads back.
* Loading a number from a block requires room for its tag as well (cast.cpp:163, and eval.cpp:236 for
  `+=` and `-=`). `ValueProofs.AdmitsExactly` says exactly which loads the bound as written lets read past
  the end of the block.

Where the repository's Readme and the code differ, the code is followed: a value of zero that was read
under the zero tag is written back under the zero tag, not converted to its own type.

## Model

| member | source | states |
|---|---|---|
| TagSpec.WriteRefinesOverwrite | mem.cpp:146-228 | after any write that fits the block, the tags read as a map from byte to cell are the old map overwritten on the written range, cut elements being raw and every other byte unchanged; the tags stay sorted, disjoint, non-empty and inside the block |
| TagSpec.RunRefinesOverwrite | mem.cpp:231-247 | the same over any sequence of writes of any types, sizes and alignments |
| TagSpec.WriteFromCells | mem.cpp:155-227 | from the tag that the search returns on, every branch of the update leaves the overwritten map |
| TagSpec.DealWithEndCells | mem.cpp:91-143 | beyond the end of the write, whole elements keep their type and position and the rest of a cut element is raw |
| TagSpec.WholeObjects | mem.cpp:146-228 | whatever is written, a byte inside an object has all the other bytes of that object around it |
| TagSpec.BelowIsTheOnlyCandidate | rbtree.cpp:104-122 | the tag with the greatest offset at or below a byte is the only one that can contain it |
| TagRuns.WriteCanonical | mem.cpp:146-189 | writing an aligned object of the block's one type keeps the list of maximal runs: sorted, non-empty, no two touching |
| TagRuns.WriteAllElements | mem.cpp:146-189 | after any aligned writes of one type, a byte is tagged exactly when one of the written elements contains it |
| TagRuns.OrderOfWritesIsIrrelevant | mem.cpp:146-189 | two sequences of aligned writes of the same elements leave the same list |
| TagRuns.ArrayIsOneRun | cast.cpp:75-77 | writing the next element of an array extends its single run |
| TagAsWritten.AsWrittenExactly | mem.cpp:91-228 | with the tags set exactly as the source sets them, wherever its search finds the tag below the write, one write agrees with the overwritten map on every byte if and only if a condition on that tag and the end of the write holds |
| TagAsWritten.AsWrittenBelowLimit | mem.cpp:91-228 | so on every balanced tree that indexes the list and whose right side fits an int, for every offset below 2^31 |
| TagAsWritten.StartFoundExactly | mem.cpp:149 | as coded, the search finds the tag below every offset under 2^31 if and only if the right side of the tree fits an int |
| TagAsWritten.SearchGoesAstray | rbtree.cpp:105-122 | a block with tags at 0 and at 2^31, in which the search for byte 8 returns the second one |
| TagAsWritten.AsWrittenLosesTags | mem.cpp:224-227 | a write on which the source loses the end of a run |
| TagAsWritten.AlignedRunsAreClean | mem.cpp:146-189 | over any sequence of aligned writes of one type below 2^31, on trees that index the list and whose right sides fit an int, the source's search and tags need no repair |
| TagAsWritten.IndexedFit | mem.cpp:146-189 | in such a run that starts on an empty list, every tree that indexes the list has a right side that fits |
| TagAsWritten.AsWrittenOrderIsIrrelevant | mem.cpp:146-189 | so from an empty list, on any trees that index the lists, the elements of one type may come in any order below 2^31: the source sets the same canonical list of tags |
| TagBlock.TagList.Update | mem.cpp:146-228 | from a balanced tree that indexes the list, the in-place update leaves exactly the list of `TagSpec.Write`, chained from `firsttag` through `next` with `prev` its inverse, and a balanced tree that indexes it |
| TagBlock.TagList.UpdateAll | mem.cpp:231-247 | the same over any run of writes |
| TagBlock.TagList.InsertTag | mem.cpp:154-156 | inserting a tag in the tree puts its node at its place in the order |
| TagBlock.TagList.RemoveTag | mem.cpp:139-140 | removal, by contract: the node is gone, the order of the rest and the balance are kept |
| TagBlock.TagList.MoveKey | mem.cpp:119 | a tag whose offset changes in place between its neighbours keeps its place in the tree |
| TagBlock.TagList.DealLoop | mem.cpp:91-143 | the loop over the following tags, on the linked nodes |
| TagBlock.TagList.FindBelow | rbtree.cpp:104-122 | the descent of the tree, comparing full offsets, returns the last tag at or below the offset, or null |
| RbSpec.InsertCorrect | rbtree.cpp:26-102 | insertion keeps red-black balance and search order, and puts the new node, and nothing else, in its exact in-order place |
| RbSpec.SetKeyCorrect | mem.cpp:119 | a changed key keeps balance and every node's place |
| RbSpec.RemovalExists | rbtree.cpp:144-204 | the contract of removal can be met for every tree and node |
| RbAsWritten.InsertExactly | rbtree.cpp:26-102 | as written, insertion keeps all nodes in order if and only if the parent is black, or the uncle is red, or the rotation is at the root |
| RbAsWritten.BalancedExactly | rbtree.cpp:26-102 | as written, insertion into a balanced tree keeps all nodes in order and the balance if and only if the parent is black, or the grandparent is the root and the uncle is red, the rotation is double, or the colour left unset is red |
| RbAsWritten.LosesNodes | rbtree.cpp:96-98 | five ascending keys of which the source loses two |
| RbAsWritten.LosesBalance | rbtree.cpp:60-67 | six keys, none lost, after which the balance is gone |
| RbAsWritten.BalanceByChance | rbtree.cpp:77-95 | after three ascending keys the balance depends on a colour that is never set |
| RbSpec.FixRb | rbtree.cpp:46-101 | recolouring and rotation restore balance: no red node under a red one, equal black height, black root |
| RbSpec.FixInorder | rbtree.cpp:80-101 | recolouring and rotation do not change the in-order sequence |
| RbTrees.RbTree.Insert | rbtree.cpp:26-102 | the in-place insertion builds the tree of `RbSpec.Insert`, child and parent links being inverse throughout |
| RbTrees.RbTree.Round | rbtree.cpp:46-101 | one round ends with the repaired tree or moves the red node up exactly two levels, all else being balanced |
| RbTrees.RbTree.FixUp | rbtree.cpp:46-101 | the recolour loop ends with the repaired tree |
| RbTrees.RbTree.SetKey | mem.cpp:119 | a key that changes in place, strictly between its neighbours, keeps the tree sorted, balanced and linked |
| RbTrees.RbTree.FindBelow | rbtree.cpp:104-122 | the loop, narrowing as the source does, returns the result of the search in at most as many rounds as the tree is high |
| RbTrees.RbTree.FindAbove | rbtree.cpp:124-142 | the same for the search upward |
| RbSearch.BelowFinds | rbtree.cpp:104-122 | in any search tree whose keys compare with the value as what the search sees of them, the node with the greatest key not above the value, or null exactly when there is none |
| RbSearch.AboveFinds | rbtree.cpp:124-142 | likewise the least key not below the value |
| RbSearch.BelowExactly | rbtree.cpp:104-122 | as written, `findBelow` is right for every int if and only if the right side of the sorted tree fits an int as far as a search can get |
| RbSearch.AboveExactly | rbtree.cpp:124-142 | as written, `findAbove` is right for every int if and only if that holds, or the first key that does not fit is seen as 2^31 - 1 with nothing in between |
| RbSearch.HeightBound | rbtree.cpp:104-142 | a red-black tree of n nodes is at most 2*log2(n+1) high, which bounds both searches |
| TagSearch.SearchFindsTag | mem.cpp:149-155 | on a search tree that indexes a block's tags by offset, the search returns the node of the tag that a write starts from |
| TagSearch.OnlyCandidate | rbtree.cpp:104-122 | the tag that contains a byte is the one the search for that byte returns |
| TagSearch.InsertKeepsIndex | mem.cpp:154-156 | inserting a tag's node keeps the tree an index of the list with the tag in its place |
| TagSearch.SetKeyKeepsIndex | mem.cpp:119 | changing a tag's offset in place, in list and tree, keeps the index |
| TagSearch.RemoveKeepsIndex | mem.cpp:139-140 | any removal that meets the contract keeps the tree an index of the list without the tag |
| Words.LeBytes | types.cpp:361-396 | any bytes are the host word that they decode to |
| Words.PlaceOfDigits | types.h:226-250 | host words have their digits least significant first, the values of numbers most significant first |
| Words.BeWord | types.h:226-250 | a big-endian value that fits its bytes decodes to itself |
| Numbers.DecodeValue | types.h:232-245 | the value loop decodes the big-endian bytes, at every width |
| Numbers.EncodeValue | types.h:289-295 | the dump loop writes the big-endian bytes of the value and nothing else |
| Numbers.StoreAfterLoad | types.h:226-305 | load then store is the identity on arbitrary bytes if and only if the number did not load as uninitialised (or was in the one stored form of that) and a bool byte was 0 or 1 |
| Numbers.StoredStatus | types.h:252-263 | every number loads by what was stored: uninitialised if it was or has that tag, defined if its tag is recognised, undefined otherwise |
| Numbers.StoreLoadIdempotent | types.h:226-305 | a second load and store changes nothing more |
| Numbers.LoadAfterStore | types.h:226-305 | a defined number is read back as it was stored if and only if its tag is that of its kind, or the zero tag on a zero |
| Numbers.LoadAfterStoreAsWritten | types.h:252-264 | as written this holds if and only if the tag is that of int, or the zero tag on a zero: for numbers under their own tag, only int and unsigned int |
| Arithmetic.EvalIsExactModulo | types.h:337-370 | sums, differences, products and negations over defined numbers of one width are congruent to the exact integer value |
| Arithmetic.StatusIsLeafMinimum | types.h:337-432 | the status of an expression is the worst of its operands, except that dividing a defined number by a defined zero is undefined |
| PureExpressions.PureIsTree | eval.cpp:247-292 | in the executor, an expression without assignments, calls and comparisons changes nothing and gives the value of its operator tree over what its variables hold |
| PureExpressions.PureIsExact | eval.cpp:247-292 | such a sum, difference, product or negation over defined variables is congruent to its exact integer value |
| Arithmetic.DivIsSignedDivision | types.h:372-389 | division is exact truncated division if and only if it is not the one signed quotient that does not fit |
| Arithmetic.DivTruncates | types.h:384-388 | the remainder is smaller than the divisor and has the sign of the dividend |
| Bitwise.OrIsBitwise | types.h:390-400 | the bitwise or of defined numbers of any kind: every bit of the result is the disjunction of the operands' bits |
| Bitwise.AndIsBitwise | types.h:401-411 | the bitwise and likewise: every bit of the result is the conjunction |
| Arithmetic.CompareIsSignedOrder | eval.cpp:194-221 | the comparison that splits on signs is mathematical signed order |
| PureExpressions.ComparisonIsSignedOrder | eval.cpp:179-222 | a comparison gives 1 exactly when it holds of the signed values of its left and right operand, in that order, and changes nothing |
| ValueProofs.PtrStoreAfterLoad | types.cpp:324-396 | load then store of a pointer is the identity if and only if it did not load as uninitialised or was in its one stored form; and it is always idempotent |
| ValueProofs.PtrLoadAfterStore | types.cpp:324-396 | a pointer to an active block is read back as it was stored |
| ValueProofs.DanglingLoadsUndefined | types.cpp:324-355 | a stored pointer to a block that is not active loads as undefined |
| ValueProofs.FuncStoreAfterLoad | types.cpp:428-474 | load then store of a function is the identity |
| ValueProofs.FuncLoadAfterStore | types.cpp:428-474 | a registered function is read back as it was stored |
| ValueProofs.StackPosStoreAfterLoad | types.cpp:513-553 | load then store of a stack position is the identity |
| ValueProofs.StackPosLoadAfterStore | types.cpp:508-553 | a stack position is read back as it was stored |
| ValueProofs.PtrStatus | types.cpp:324-355 | a stored pointer is uninitialised by its tag alone, defined under the tag of a pointer to an active block, and undefined otherwise |
| ValueProofs.UninitAndNull | types.cpp:334-355 | an uninitialised pointer is read as one; a null pointer is read as undefined, since no block has its id |
| ValueProofs.FuncStatus | types.cpp:428-450 | the same for functions: one that is not registered is undefined |
| ValueProofs.StackPosStatus | types.cpp:513-535 | the same for stack positions, by the tag alone |
| ValueProofs.StructStatus | types.cpp:586-600 | the same for structs: under its tag a struct is as good as its worst member, under the uninitialised tag no better than that, and under any other, the zero tag included, undefined |
| ValueProofs.StructStatusIsMinimum | types.cpp:577-649 | whatever is stored, a struct reads with the worst status among its own tag and its members |
| ValueProofs.RoundTrip | types.cpp:577-681 | every nested struct of initialised scalars with live references is read back equal from where it was stored |
| StructAsWritten.AsWrittenReads | types.cpp:577-649 | as written, with the loop that does not advance and numbers read by the tag of int, such a value is read back equal if and only if at every level all members are equal, the block starts with the tag of a struct, and the number in the first place, if it is one, has the tag of int or is a zero under the zero tag |
| StructAsWritten.CharIsNotRead | types.h:252-263 | a struct of one `char` that meets the rest of that condition and is not read back |
| ValueProofs.ValueStoreAfterLoad | types.cpp:577-681 | storing any loaded value back reproduces the bytes it was read from, unless a scalar in it was uninitialised |
| ValueProofs.LoadExtent | cast.cpp:134-237 | a load succeeds if and only if the bytes of its type lie in the block |
| ValueProofs.AdmitsExactly | cast.cpp:163 | with the bound for numbers as written, and members one after the other, a load that does not fit is let through if and only if the last thing it reads is a number of which the last one to four bytes are missing |
| ValueProofs.ReadsPastBlock | cast.cpp:163 | an int in a block of four bytes |
| ValueProofs.WriteIsLocal | mem.cpp:231-247 | a write changes no byte outside its footprint and no load that does not touch it |
| Sizes.GetSizeOfLoop | cast.cpp:20-57 | the recursive size with its loops, in 64-bit arithmetic |
| Sizes.SizeOfIsExact | cast.cpp:20-57 | the size is exact for every type whose exact size fits the word |
| Sizes.ZeroInitFits | cast.cpp:20-131 | where the size fits `size_t`, the zero value of a type is at most as large as `getSizeOf` says, and exactly as large if and only if the first member of each union is as large as any other and each array has fewer than 2^32 elements |
| Sizes.UnionFreeAgrees | cast.cpp:20-131 | so the sizes are equal for every type without unions whose array lengths fit 32 bits, to which `zero_init` truncates them |
| ZeroReads.ZeroInitIsZero | cast.cpp:82-131 | the zero value of every type holds only zeros and null pointers |
| ZeroReads.ZeroInitReads | cast.cpp:82-131 | read back from a block, every number in it is a defined zero, but its null pointers and its structs are undefined |
| MemBlocks.Dump | types.cpp:361-396 | `dump_repr` writes exactly the encoding of the value at its place in the buffer |
| MemBlocks.DumpStruct | types.cpp:668-681 | the members follow one another after the four-byte tag |
| MemBlocks.MemBlock.Write | mem.cpp:231-247 | a write fails if and only if it does not fit; otherwise bytes and tags change exactly as specified |
| MemBlocks.MemBlock.Read | cast.cpp:134-237 | reading succeeds if and only if the block is not freed and the type's bytes lie in it, and returns any live value that is stored there |
| MemBlocks.MemBlock.WriteThenRead | mem.cpp:231-247 | a live value is read back where it was written, and what is read elsewhere is as before the write |
| MemBlocks.NewArr | cast.cpp:59-80 | the array fails if and only if its size overflows; otherwise it holds `num` copies and one run of `num` elements |
| Memory.StoreExactly | mem.cpp:231-247 | a store aborts exactly when it does not fit; otherwise the bytes are where they were written, and no other byte or block has changed |
| Memory.IdsIncrease | mem.cpp:7-16 | over any run, the ids of all blocks ever made are new, strictly increasing, and never 0, 1 or 2 |
| Memory.CounterCounts | mem.cpp:7-16 | the counter wraps around exactly when every id has been handed out |
| Memory.ExhaustionIsPermanent | mem.cpp:9-12 | once it has wrapped around, every attempt to make a block aborts |
| Memory.RunEvolves | mem.cpp:249-269 | over any run ids are not reused, freed blocks stay freed, and sizes stay |
| Memory.NoPointerOutlivesItsBlock | types.cpp:324-355 | a pointer to a deleted block loads as undefined in every later state |
| Memory.RetiredForever | cast.cpp:145-147 | every later read of a block retired by a frame pop aborts |
| Frames.PositionsExact | mem.cpp:35-48 | the list of positions of a name is in lexicographic order and complete |
| Frames.IndexMeaning | mem.cpp:35-72 | the index invariant says: one ordered, complete list for each bound name, and none for others |
| Frames.IndexFindsScan | eval.cpp:44-55 | the last position in the index is the binding that a scan from the innermost frame outward finds |
| Frames.PositionsAreStable | mem.cpp:35-72 | a recorded position resolves to the same binding until its frame is popped, over any pushes, declarations and pops |
| Machines.Machine.NewBlockId | mem.cpp:7-16 | the counter step, with the permanent error |
| Machines.Machine.AddStackVar | mem.cpp:35-48 | the index stays exact when a variable is added |
| Machines.Machine.AddStackFrame | mem.cpp:50-53 | the index stays exact when a frame is pushed |
| Machines.Machine.PopStackFrame | mem.cpp:55-72 | walking the frame forwards while popping each list from the back removes exactly that frame's positions, even with repeated or empty names, and frees exactly its blocks |
| Machines.Machine.EvalLexpr | eval.cpp:44-55 | the indexed lookup is the scan, then the file-level tables |
| Interp.EvalRexpr | eval.cpp:106-515 | the modelled expressions give the result, memory and frames of the executor without an index |
| Interp.CallFunction | eval.cpp:485-515 | likewise calls of functions with a body, with the arguments evaluated in the new frame |
| Interp.ExecStmt | eval.cpp:590-706 | likewise statements |
| Interp.ExecDecl | eval.cpp:566-586 | likewise declarations of `int` variables |
| Interp.RunSwitch | eval.cpp:659-695 | likewise switches, with the search for the case and the default |
| Interp.RunLoop | eval.cpp:642-653 | likewise the rounds of a for loop |
| Interp.RunProgram | eval.cpp:833-899 | likewise a whole program, from the lookup of `main` on |
| Progress.ExecMore | eval.cpp:590-706 | a run that ends is the same with more fuel: the bound is no part of the result |
| Discipline.EvalKeeps | eval.cpp:106-515 | from any state, an expression leaves the stack exactly as it was, in the same file; where the live stack blocks are those of the bound variables, they still are |
| Discipline.ExecKeeps | eval.cpp:590-706 | from any state, after any statement, left by its end, return or break, the depth and all frames below the top are as before and the old top frame is a prefix of the new one; and the agreement of blocks and variables is kept |
| Discipline.CallKeeps | eval.cpp:427-515 | from any state, every call restores the stack exactly |
| Discipline.BlocksRestoreStack | eval.cpp:599-706 | from any state, compound statements, loops and switches restore it exactly |
| Discipline.NothingLeaks | mem.cpp:55-72 | where the stack is as before, the live variables are those of before and every new block is freed |
| Discipline.WholeRun | eval.cpp:833-899 | after a whole run every block made for a variable has been freed and no other block has |
| Discipline.PositionsSurvive | eval.cpp:453-474 | from any state, a recorded position still names the same variable after any statement |
| Discipline.ReadsStaySafe | cast.cpp:142-163 | in every state reached from one whose variables have room for an int, a variable read fails only when the name stands for no variable: never on a freed or short block |
| Breaks.BreakScoping | eval.cpp:599-706 | for any set of functions that has all those with a loose break, or with a loose `return` of a call into the set: a statement gives the marker to its caller only if it has such a break or return itself, and an expression only if it is such a call |
| Breaks.EveryBreakScoped | eval.cpp:599-706 | in every program, a statement gives the marker to its caller only if it has a break, or a `return` of a call, that no switch in it encloses |
| Breaks.ScopingNeedsCalls | eval.cpp:619-621 | breaks alone, without returns, are scoped to statements if and only if no call evaluates to the marker |
| Breaks.LeakThroughReturn | eval.cpp:619-653 | a program in which `return f();` acts as a break |
| Breaks.SwitchRunsFromTarget | eval.cpp:659-695 | with constant expressions as labels a switch runs its body from the first equal case on, else from the default, else not at all, and absorbs a break |
| PureExpressions.ClosedEval | eval.cpp:673 | a constant expression evaluates to its own value in every state and changes nothing |
| PureExpressions.ClosedIsTree | eval.cpp:673 | without comparisons, that value is the one of its operator tree |
| Breaks.FallThrough | eval.cpp:687-693 | children are run in turn exactly until one returns something |
| Breaks.NothingAfterBreak | eval.cpp:687-693 | what follows a break or a return in a body is not run |
| Breaks.SecondLabelIsMissed | eval.cpp:667-678 | a case label directly after another one is not seen: `switch (2) { case 1: case 2: return v; }` runs nothing |
| EvalOrder.IfElseChooses | eval.cpp:622-632 | after `if (c) x = a; else x = b;` the variable is `a` where `c` is not zero, and `b` where it is |
| EvalOrder.IfChooses | eval.cpp:622-632 | without `else`, it is `a` where `c` is not zero, and otherwise nothing changes after `c` |
| EvalOrder.IfElseOnVariable | eval.cpp:622-632 | the same where the condition is the variable itself |
| EvalOrder.FileLevelFirst | eval.cpp:44-55 | a name that is not on the stack is that of the file if it has one, else the external one; assigning to it changes that variable and no other |
| EvalOrder.AssignmentDefines | eval.cpp:171-178 | `=` makes the variable defined, with the bits of the value, even if the value was not defined |
| EvalOrder.ReadsExactly | cast.cpp:142-163 | a variable is read exactly when its block is there, has not been freed and has room for an int; otherwise the run aborts |
| EvalOrder.UninitialisedReads | eval.cpp:566-586 | a variable declared without an initialiser reads as uninitialised |
| EvalOrder.CalleeSeesCaller | eval.cpp:44-55 | a function reads the variables of its callers before those of its own file |
| EvalOrder.VariableHidesFunction | eval.cpp:44-55 | a variable of any caller hides a function of its name: calling the function aborts |
| EvalOrder.RightOperandFirst | eval.cpp:167-171 | in `(x = v) op (x = w)` the variable ends up as `v` |
| EvalOrder.InitialiserRunsTwice | eval.cpp:577-581 | `int y = (x += v);` adds `v` twice and stores the second sum |
| EvalOrder.ArgumentsSeeParameters | eval.cpp:451-503 | a later argument that names an earlier parameter has the value just passed for it |
| AgreesWithC.StatementsAgree | eval.cpp:590-706 | in a fair program, whatever C says that a statement does, the executor does: it ends, in the same way and with the same value, and its variables hold the same integers |
| AgreesWithC.ExpressionsAgree | eval.cpp:106-515 | the same for expressions, calls included |
| AgreesWithC.MainAgrees | eval.cpp:833-899 | the whole run of a fair program gives the number that C says `main` returns |
| AgreesWithC.CallAgrees | eval.cpp:427-515 | a call does in the callee's frame what C does with the parameters alone, and leaves the variables of all callers as they were |
| AgreesWithC.LoopAgrees | eval.cpp:642-653 | the rounds of a loop do what C says, the increment included |
| AgreesWithC.SwitchAgrees | eval.cpp:659-695 | a switch runs what C says, returns what is returned in it, and ends at a break |
| CArithmetic.BinaryAgrees | types.h:337-411 | wherever C defines an operator on two integers, the executor's operation on their patterns gives the pattern of the result |
| CArithmetic.UnaryAgrees | types.h:412-432 | the same for negation and `!` |
| CVariables.MirrorDeclare | mem.cpp:35-48 | a declared variable is the innermost one, holds its value, and leaves all others as they were |
| CVariables.MirrorWrite | mem.cpp:231-247 | writing a variable changes the integer it holds and no other |
| CVariables.MirrorPop | mem.cpp:55-72 | popping a frame leaves exactly the variables below it, with what they hold |
| CPrograms.LoopEndsAtMaximum | eval.cpp:633-658 | `for (x = a; x < b; x += 1) ;` ends with the greater of `a` and `b` in `x`, all other variables being as before |
| CPrograms.FactIsFactorial | eval.cpp:427-515 | the recursive factorial function gives n! for every n up to 12, in any fair program and state |
| CPrograms.RunGivesFactorial | eval.cpp:833-899 | the whole run of `main() { return fact(k); }` gives k! |
| CPrograms.SwitchReturns | eval.cpp:659-695 | a switch whose case and default return gives the one that the value selects |
| External.EmuMalloc | external.cpp:36-54 | the argument checks, and a new heap block of the requested size |
| External.EmuFree | external.cpp:56-74 | the argument checks, and the block, of whatever kind, is no longer active |
| External.MallocArgument | external.cpp:41-50 | with numbers recognised by the tag of their own kind, a size stored as the argument is used if and only if it is not uninitialised and its tag is recognised; an undefined one is, under its normal tag, since it loads as defined |
| External.MallocAsWritten | external.cpp:41-50 | as written, it is used if and only if its tag is that of int, or the zero tag on a zero: every size under the tag of its own type aborts |
| External.FreeArgument | external.cpp:61-71 | a pointer stored as the argument names the block to free exactly when that block is active; otherwise the run aborts |
| External.MallocMakes | external.cpp:50-54 | `malloc` aborts exactly when no id is left; otherwise there is one more block, on the heap and of that size, and no other has changed |
| External.FreeRemoves | external.cpp:70-74 | `free` aborts exactly when the block is gone or was retired; otherwise exactly that block is gone |
| External.MallocThenFree | external.cpp:36-74 | a pointer from `malloc` is read back as itself until the block is freed, and as undefined ever after |
| External.EmuVaStart | external.cpp:77-92 | the indexed lookups and the stored position are those of the specification without an index |
| External.VaStartStores | external.cpp:77-92 | `va_start` restores the stack and stores the position of one variable in the storage of the other, changing no other block |
| External.VaStartKeeps | external.cpp:77-92 | `va_start` keeps the stack, and the agreement of blocks and variables |
| External.StoredPositionSurvives | external.cpp:77-92 | the stored position names the same variable after any statement that the executor runs, and that variable is live |
| External.StoredPositionResolves | external.cpp:77-92 | it resolves to the variable it was made for until that variable's frame is popped, over any pushes, declarations and pops |
| External.VaStartGoesThrough | external.cpp:77-92 | a state in which all of that applies |

## Left out

- The syntax tree and type classes of Clang: replaced by datatypes for statements, expressions and types.
- Expressions other than literals, variables, assignments, `+=`, `-=`, binary and unary operators, comparisons and calls over `int`; declarations of other types; pointers, subscripts, casts, `sizeof` and initialiser lists in the executor.
- Interp.EvalRexpr: of the expressions in the cited lines, literals, variables, `=`, `+=`, `-=`, unary and binary operators, comparisons and calls, all over `int`.
- Interp.CallFunction: calls of the built-in functions, which `External` has on their own, and calls through pointer variables.
- Interp.ExecDecl: declarations of variables that are not `int`.
- Interp.ExecStmt: the executor's memory holds the bytes of each block but not its tags; `MemBlocks` has bytes and tags together.
- ValueProofs.RoundTrip: about structs of scalars; a union is read by the source as if it were a struct, and is not claimed to come back.
- MemBlocks.NewArr: the test for elements of size zero, since no modelled value has fewer than four bytes.
- `rbtree::remove` and `balance_blacks` line by line: `RbSpec.Removed` is the contract that removal is given.
- TagBlock.TagList.UpdateAll: the tag tree is a value, as for `Update`.
- TagBlock.TagList.Update: the tag tree inside a block is a value, not the linked nodes of `RbTrees`, which has the same insertion, search and change of a key in place.
- TagAsWritten.AsWrittenExactly: about one write to a well-formed list, where the search as coded finds the tag below it; what the source does next to a list it has damaged, or from another tag, is not followed, nor are its `next` and `prev` links.
- External.EmuFree: freeing a block that a frame pop has retired, which deletes its storage twice, aborts here.
- External.StoredPositionSurvives: levels and slots are assumed to fit in the 32-bit words that store them.
- AgreesWithC.StatementsAgree: about variables on the stack; a variable of a file has no meaning in `CSemantics`, nor have labels that are not directly in the body of their switch. Nothing is claimed where C leaves the result undefined.
- Numbers of status only keep one unknown bit pattern, the same everywhere in a run.
- String literals, variable-length arrays, unimplemented operators, printing, tracing, and loading of the syntax tree.
- Scope that ends at a call, and a `break` that ends a for loop: the interpreter has neither, and the model follows it.
