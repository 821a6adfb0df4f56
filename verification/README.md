# Proofs about the passes of the DMD front end

The front end of the DMD compiler has passes that build something and later rely on its shape: the
interface slots of a class, a function generated for an array expression and cached by name, a mangled
name with back references, an exception table, the stores of a struct literal, a repaired documentation
comment. This project models those passes and proves what the rest of the compiler, or the runtime,
relies on. `dafny verify dfyconfig.toml` checks everything.

Passes that change state in place are classes and methods with loops, proved against functions; what the
pass is for is proved about those functions and about what the methods leave behind.

| files | pass | main results |
|---|---|---|
| `ArrayOp`, `ArrayOpNames`, `ArrayOpMeaning`, `ArrayOpTerms`, `ArrayOpExact`, `ArrayOpInputs`, `ArrayOpCache` | arrayop.c | exactly when a generated or cached loop means what the expression means |
| `ClassLayout`, `ClassCasts`, `InterfaceVtbl` | class.c, e2ir.c | one slot per first-child chain, no overlap in a whole instance; offsets that casts trust are right |
| `CppMangle`, `CppDemangle` | cppmangle.c | a reader that keeps the same dictionary recovers what was mangled |
| `ExceptionTable`, `ExceptionTableReader`, `TryNesting` | eh.c, s2ir.c | the table reads back; guard ranges nest |
| `StructLiteral` | e2ir.c | a full literal decides every byte of the struct |
| `CastLowering` | e2ir.c | the conversions emitted for a cast compute the cast |
| `StringCache` | e2ir.c | a shared symbol holds the literal it is shared for |
| `DdocParens` | doc.c | exactly the unmatched parentheses are replaced |
| `MemberAccess` | access.c | access is the best inheritance path; what the search for access finds |
| `LiteralFold` | constfold.c | byte buffers refine sequences |
| `NestedMembers` | dsymbol.c | the cursor agrees with the flattened list |
| `Root`, `Numerals`, `Wrappers` | root library | buffers, lists, numerals |

Some promises turned out not to hold as one would state them. The code is modelled as it is, a lemma
gives the input, and the exact condition is proved.

* The body of a generated array operation is analysed a second time, with the types of its parameters. For
  `a[] = b[] + (p - q)` on `int` the difference of the pointers, already divided by the size of an `int`,
  is divided again (`PointersDividedTwice`).
* An array expression may assign to a scalar operand. The generated function assigns to a parameter of its
  own, which keeps its value over the rounds of the loop: `a[] = b[] + (x += y)` leaves wrong elements
  (`ByValueAccumulates`). Where the elements are right the caller's variable still is not changed, as in
  `a[] = b[] + (x = y)` (`ScalarAssignmentIsLost`).
* So the elements are right, for every arithmetic, state and placing of the slices, if and only if
  analysing the operators on scalars once more changes nothing, scalar assignments are plain, and no
  variable is read after it was given another value (`OwnMeansExactly`). The caller's variables are right
  too if and only if, besides the first of these, variables are assigned to only from themselves
  (`WholeMeaningExactly`); a variable that was given another value never gets the first one back
  (`NeverRestored`).
* The name of an array operation does not mention the types of scalar operands. The function cached for
  `a[] = b[] + (x + y)` on complex elements with an imaginary `x` and a real `y` is also called when `x`
  is real and `y` imaginary, and takes the real part for the imaginary (`NameHidesOperandTypes`). A cached
  function is right if and only if its parameters have the types of the arguments and the expression's
  own function would be right (`CachedCallExactly`).
* The search of `accessCheckX` does not follow a path past the class that declares the member. It misses a
  class that admits the member (`StaticCheckGivesUp`) exactly if the member is static and at least
  protected, the declaring class gives no access itself, and a class above it does and has a base class
  (`CheckExactly`).
* An interface shares the vtbl pointer of its first base. If only the interface is COM, which another base
  can make it, every function is one slot off (`SecondBaseMovesSlots`); slots agree if and only if both or
  neither are COM (`ChainSharesVtbl`, `WholeChainSharesVtbl`).

## Model

| member | source | states |
|---|---|---|
| ArrayOp.AcceptedExactly | DMD/DMD/arrayop.c:38-81 | an expression is accepted if and only if every leaf is a slice or no array, and no cast to an array type is met above the leaves |
| ArrayOp.BuildArrayIdent | DMD/DMD/arrayop.c:385-470 | the buffer grows by the expression in postfix order, right operand first for assignments, and every leaf is shifted to the front of the arguments |
| ArrayOp.BuildArrayLoop | DMD/DMD/arrayop.c:477-588 | the loop body, and the parameter list with the new parameters shifted in front, the newest one losing const at each assignment |
| ArrayOpCache.Mangle | DMD/DMD/arrayop.c:105-126 | the name is `_array`, the postfix tokens, `_` and the deco of the element type; the arguments are the leaves, last visited first |
| ArrayOpCache.GenerateFunction | DMD/DMD/arrayop.c:319-351 | body, parameters and return type of the generated function |
| ArrayOpNames.RpnInjective | DMD/DMD/arrayop.c:107-110 | expressions with the same postfix tokens have the same shape |
| ArrayOpNames.SpellInjective | DMD/DMD/arrayop.c:112-122 | run-together capitalised token texts up to the underscore determine the tokens, and what follows it the deco |
| ArrayOpNames.NameDecodes | DMD/DMD/arrayop.c:105-126 | two names are equal if and only if the shapes and the element decos are |
| ArrayOpNames.OperatorNames | DMD/DMD/arrayop.c:452-470 | the name of `a[] = e1 op e2` for each of the eight operators, in the words of the run-time library: operands, operator, target |
| ArrayOpNames.UnaryNames | DMD/DMD/arrayop.c:436-446 | the name of `a[] = -e1` and `a[] = ~e1` |
| ArrayOpNames.UpdateNames | DMD/DMD/arrayop.c:412-434 | the name of `a[] op= e2` for each of the eight operators: operand, target, operator |
| ArrayOpNames.SameShapeSameCode | DMD/DMD/arrayop.c:477-588 | equal shapes give equal loop bodies, parameter kinds and const flags |
| ArrayOpNames.CacheKeyExact | DMD/DMD/arrayop.c:128-132 | expressions of one name need the same function if and only if their own types and those of their leaves agree |
| ArrayOpNames.PositionalAgreement | DMD/DMD/arrayop.c:319-320 | argument i and parameter i come from the same leaf, in reverse order of visiting, and there are as many of each |
| ArrayOpNames.ParameterNamesDistinct | DMD/DMD/arrayop.c:477-508 | parameter names are distinct and none is the loop index |
| ArrayOpNames.AssignedAreWritten | DMD/DMD/arrayop.c:510-541 | the loop assigns to exactly the parameters that lost const |
| ArrayOpNames.ConstExactly | DMD/DMD/arrayop.c:497-541 | a parameter is const if and only if it is a slice that is never assigned through |
| ArrayOpMeaning.KeepsWithOwnTypes | DMD/DMD/arrayop.c:357-361 | with parameters of the types of their leaves the analysed body keeps the meaning if and only if analysis is stable on scalar operators, scalar assignments are plain, and no variable is read after it was given another value |
| ArrayOpMeaning.KeepsFixesTypes | DMD/DMD/arrayop.c:357-361 | conversely, a body that keeps meaning and type has parameters of the types of its leaves |
| ArrayOpMeaning.Simulates | DMD/DMD/arrayop.c:477-588 | if the analysed body keeps the meaning, one execution of it does what evaluating the source expression at that index does, faults included, scalar assignments and other types of operands among them |
| ArrayOpMeaning.SourceVars | DMD/DMD/arrayop.c:510-541 | evaluation changes at most the variables counted as changed, and a value counted as the initial one of a variable is that |
| ArrayOpMeaning.DependsOnCells | DMD/DMD/arrayop.c:312-317 | evaluation at an index depends only on that element of each slice |
| ArrayOpMeaning.ChangesCells | DMD/DMD/arrayop.c:312-317 | evaluation at an index changes only that element of the slices assigned to |
| ArrayOpMeaning.LoopPointwise | DMD/DMD/arrayop.c:323-330 | the loop ends in the pointwise meaning over the initial state, or stops with a bounds error exactly when some index is out of bounds; slices that are only read may overlap as they like |
| ArrayOpMeaning.MeaningPreserved | DMD/DMD/arrayop.c:312-377 | calling a function that fits and keeps the meaning returns the destination and leaves each element as the source expression says, if slices assigned to coincide with or lie apart from the others; it faults if and only if a slice is shorter than the destination |
| ArrayOpMeaning.OwnMeaningPreserved | DMD/DMD/arrayop.c:312-377 | the same for the function generated for the expression itself, from conditions on the expression alone |
| ArrayOpMeaning.ReturnsDestination | DMD/DMD/arrayop.c:341-343 | the function has the type of its first parameter, the destination, which it returns |
| ArrayOpTerms.Lockstep | DMD/DMD/arrayop.c:477-588 | on the machine whose values are terms, body and expression have the same value if and only if the body keeps the meaning, in the first round and in later ones |
| ArrayOpTerms.BodyRuns | DMD/DMD/arrayop.c:477-588 | a round touches only its own element, and leaves every parameter that is assigned to from itself changed |
| ArrayOpExact.Witness | DMD/DMD/arrayop.c:312-377 | where the body does not keep the meaning, a state of two elements makes the call leave a wrong one |
| ArrayOpExact.MeansExactly | DMD/DMD/arrayop.c:312-377 | a function that fits computes the meaning for every arithmetic, state and placing of slices if and only if its body keeps it |
| ArrayOpExact.OwnMeansExactly | DMD/DMD/arrayop.c:312-377 | the elements are right if and only if analysis is stable on scalar operators, scalar assignments are plain, and no variable is read after it was given another value |
| ArrayOpExact.ChangesExactly | DMD/DMD/arrayop.c:510-541 | on the machine of terms exactly the variables counted as changed have other values after evaluation |
| ArrayOpExact.NeverRestored | DMD/DMD/arrayop.c:510-541 | in such an expression a variable that was given another value keeps another value to the end |
| ArrayOpExact.LeavesCallerExactly | DMD/DMD/arrayop.c:477-508 | the expression leaves the variables of the caller alone, as the call does, if and only if they are assigned to only from themselves |
| ArrayOpExact.WholeMeaningExactly | DMD/DMD/arrayop.c:312-377 | elements and variables are right if and only if analysis is stable on scalar operators and variables are assigned to only from themselves |
| ArrayOpInputs.ByValueAccumulates | DMD/DMD/arrayop.c:477-541 | `a[] = b[] + (x += y)`: the call leaves 2 in a[1] where the expression gives 1 |
| ArrayOpInputs.ScalarAssignmentIsLost | DMD/DMD/arrayop.c:477-541 | `a[] = b[] + (x = y)`: the elements are right and the variable is not |
| ArrayOpInputs.PointersDividedTwice | DMD/DMD/expression.c:8998-9017 | `a[] = b[] + (p - q)`: the call leaves 1 in a[1] where the expression gives 4 |
| ArrayOpCache.Compiler.ArrayOp | DMD/DMD/arrayop.c:89-378 | an error exactly for void elements, or if some leaf is a whole array or an array is cast above the leaves; otherwise a call of the cached function, generated or taken from the library only if the name is new; the cache invariant is kept |
| ArrayOpCache.SameNameFits | DMD/DMD/arrayop.c:105-132 | two accepted expressions of one name have the same type, and the function of the one fits the other in everything but the types of scalar parameters |
| ArrayOpCache.CachedCallPreservesMeaning | DMD/DMD/arrayop.c:128-132 | whatever was compiled before, the call of a cached generated function whose parameters have the types of the arguments preserves the meaning, on the conditions on the expression alone |
| ArrayOpCache.CachedCallExactly | DMD/DMD/arrayop.c:128-132 | a cached generated function computes the meaning if and only if its parameters have the types of the arguments and the function generated for the expression itself would |
| ArrayOpCache.NameHidesOperandTypes | DMD/DMD/arrayop.c:385-389 | two accepted expressions of one name, each right with its own function: the function cached for the one leaves 2 + 1i for the other where 1 + 2i is right |
| ClassLayout.Layout.constructor | DMD/DMD/class.c:955-962 | the nodes of the declared interfaces, each the start of a chain of its own |
| ClassLayout.Layout.CopyChild | DMD/DMD/class.c:1480-1488 | a child becomes a copy of the node the interface has itself, whose offset is still zero, with copies of its own below it, and is listed unless it continues the chain above |
| ClassLayout.Layout.CopyBaseInterfaces | DMD/DMD/class.c:1468-1491 | the whole interface graph below a node is copied into new nodes, nothing else changes, and exactly the new nodes that are not first children are listed, each once |
| ClassLayout.Layout.CopyChildren | DMD/DMD/class.c:1478-1489 | the loop over the children: each is a full copy, and what is listed are the heads of new chains |
| ClassLayout.Layout.InterfaceSemantic | DMD/DMD/class.c:955-972 | the declaration's nodes are full copies of its interfaces, and `vtblInterfaces` lists the head of every first-child chain once |
| ClassLayout.Layout.AssignChain | DMD/DMD/class.c:696-703 | the walk down first children gives the offset to exactly the nodes of that chain |
| ClassLayout.Layout.AllocateSlots | DMD/DMD/class.c:688-709 | every node gets the slot of its chain, consecutive aligned pointers from the end of the fields on, and `structsize` lies behind them; the assertion that a head has no offset yet holds |
| ClassLayout.AllocateChained | DMD/DMD/class.c:1474-1475 | giving a node children keeps every node on exactly one chain |
| ClassLayout.SlotAligned | DMD/DMD/struct.c:138-153 | slots are multiples of the pointer size, the first one is the next such position, and rounding up between them changes nothing |
| ClassCasts.SlotsSeparate | DMD/DMD/class.c:688-709 | each slot is aligned, above the fields and inside `structsize`; two nodes share a slot if and only if they share a chain, otherwise the slots do not overlap |
| ClassCasts.Declare | DMD/DMD/class.c:955-972 | the passes together: full copies, first children sharing offsets; for a class one slot for each chain, apart from all others, from the end of the fields to `structsize` without gaps; no offsets for an interface |
| ClassCasts.DeclareAll | DMD/DMD/class.c:581-592 | a whole program, each class starting at the size of its base class, is laid out as the searches and `InstanceSlots` assume |
| ClassCasts.InstanceSlots | DMD/DMD/class.c:688-709 | in an instance the slots of the class and of all classes above it lie inside it, overlap only if they are of one class and chain, and overlap the fields of none of these classes |
| ClassCasts.AncestorsAreSmaller | DMD/DMD/class.c:581-592 | a class begins where the classes above it have ended |
| ClassCasts.IsBaseOfNode | DMD/DMD/class.c:1304-1329 | result and offset of the search below a copied node |
| ClassCasts.IsBaseOf | DMD/DMD/class.c:1267-1301 | result and offset of the search from a class or interface |
| ClassCasts.FoundExactly | DMD/DMD/class.c:1267-1301 | the search succeeds if and only if the target is strictly above the source |
| ClassCasts.SearchFirst | DMD/DMD/class.c:1304-1329 | below an interface the offset is known exactly along first bases, and is then that of the starting node |
| ClassCasts.CastFromInterface | DMD/DMD/e2ir.c:3569-3591 | from an interface an offset is known at compile time if and only if the target is above it along first bases; it is 0, and in every class that holds a copy of the source the target has the same slot |
| ClassCasts.CastFromClass | DMD/DMD/e2ir.c:3569-3591 | from a class a known offset is the slot of a node for the target, in the class or a base class |
| ClassCasts.CastExactly | DMD/DMD/class.c:1267-1301 | from a class: the first interface, in order and base class last, that is the target or has it above decides; the answer is the slot of that interface if the target is it or above it along first bases, and unknown otherwise |
| ClassCasts.HolderExists | DMD/DMD/class.c:1267-1301 | there is such a first interface whenever the target is above the class |
| InterfaceVtbl.BuildVtbl | DMD/DMD/class.c:1197-1228 | the vtbl of an interface: its own slot 0 unless it is COM, the bases' functions without their slot 0, then its own |
| InterfaceVtbl.BaseSlots | DMD/DMD/class.c:1200-1225 | every function of every base is in the vtbl, behind the reserved slot and the functions of the bases before it |
| InterfaceVtbl.OwnSlots | DMD/DMD/class.c:1197-1237 | the interface comes first unless it is COM, its own functions come last and in order, and there is nothing else |
| InterfaceVtbl.FirstBaseSlots | DMD/DMD/class.c:1200-1228 | where the functions of the first base are in the derived vtbl, for every combination of COM and not |
| InterfaceVtbl.ComExactly | DMD/DMD/class.c:964-967 | an interface is COM if and only if it is COM by name or something above it is, through any of its bases |
| InterfaceVtbl.ChainSlots | DMD/DMD/class.c:1200-1228 | along first bases every function is in the vtbl of the derived interface, moved by the difference of the reserved slots |
| InterfaceVtbl.ChainSharesVtbl | DMD/DMD/class.c:698-703 | a function that the derived interface has once is in the same slot in both if and only if both or neither are COM |
| InterfaceVtbl.WholeChainSharesVtbl | DMD/DMD/class.c:698-703 | all functions are in the same slots if and only if both or neither are COM, given two different functions to tell by |
| InterfaceVtbl.SecondBaseMovesSlots | DMD/DMD/class.c:1354-1359 | an interface made COM by its second base: slot 1 of its plain first base holds another function |
| CppMangle.WriteBase36 | DMD/DMD/cppmangle.c:51-64 | appends the base 36 numeral of the number |
| CppMangle.CppMangleState.Substitute | DMD/DMD/cppmangle.c:66-83 | a back reference to the first equal component, or the component becomes a new one and nothing is written |
| CppMangle.CppMangleState.WritePrefixName | DMD/DMD/cppmangle.c:91-102 | text and dictionary after writing the scopes of a symbol |
| CppMangle.CppMangleState.CppMangleName | DMD/DMD/cppmangle.c:104-127 | text and dictionary after writing a plain or nested name |
| CppMangle.CppMangleState.SymbolToCppMangle | DMD/DMD/cppmangle.c:326-337 | text and dictionary after writing a struct or enum |
| CppMangle.CppMangleState.ToCppMangle | DMD/DMD/cppmangle.c:165-353 | text and dictionary after writing a type |
| CppMangle.CppMangleState.BasicToCppMangle | DMD/DMD/cppmangle.c:177-244 | the qualifier, then the letter, only prefixed types entering the dictionary |
| CppMangle.CppMangleState.FunctionToCppMangle | DMD/DMD/cppmangle.c:285-317 | linkage, return type and parameters of a function type that is new |
| CppMangle.CppMangleState.ArgsCppMangle | DMD/DMD/cppmangle.c:357-385 | text and dictionary after writing a parameter list, `v` for an empty one and `z` for varargs |
| CppMangle.MangleCpp | DMD/DMD/cppmangle.c:130-161 | the whole mangled name, from an empty dictionary |
| CppDemangle.RoundTripType | DMD/DMD/cppmangle.c:165-353 | whatever follows it, the text of a type reads back as the type, and both dictionaries grow alike |
| CppDemangle.RoundTripFunc | DMD/DMD/cppmangle.c:285-317 | the same for a function type, whose entry stays open while its parts are read |
| CppDemangle.RoundTripArgs | DMD/DMD/cppmangle.c:357-385 | the same for a parameter list |
| CppDemangle.FirstChar | DMD/DMD/cppmangle.c:165-353 | no type starts like the end of a list, varargs or a calling convention, and only void like an empty list |
| CppDemangle.KindsToldApart | DMD/DMD/cppmangle.c:205-231 | two basic types are mangled alike if and only if they are the same or `ushort` and `wchar` |
| CppDemangle.PrefixIsPath | DMD/DMD/cppmangle.c:91-102 | the scopes of a member function are written in full, outermost first, and enter the dictionary innermost first |
| CppDemangle.RoundTrip | DMD/DMD/cppmangle.c:130-161 | a reader with the letters of C++ recovers path, constness, parameters and whether the function is variadic: `out` and `ref` parameters as references, static arrays as pointers to them, classes as pointers, `wchar` as `ushort` |
| CppDemangle.MangledNamesDistinguish | DMD/DMD/cppmangle.c:130-161 | functions that mangle alike have the same path, the same constness as members and, up to those identifications, the same parameters |
| Numerals.ReadBack | DMD/DMD/cppmangle.c:51-64 | a numeral followed by no digit reads back, in base 10 and 36 |
| ExceptionTable.GuardDimension | DMD/DMD/eh.c:100-108 | one more than the highest scope index |
| ExceptionTable.EmitGuard | DMD/DMD/eh.c:130-168 | the bytes of one guard, and the catch offset moved by the size of its catch table |
| ExceptionTable.FindEnd | DMD/DMD/eh.c:134-144 | the offset of the next block outside the try block |
| ExceptionTable.EmitCatches | DMD/DMD/eh.c:179-198 | the bytes of one catch table |
| ExceptionTable.EmitGuards | DMD/DMD/eh.c:113-170 | every guard lies at its index, every unclaimed index is zero, and the section ends where the catch tables begin |
| ExceptionTable.ExceptGentables | DMD/DMD/eh.c:82-201 | header, guards and catch tables all lie where the recorded offsets say, and the size is what was computed before |
| ExceptionTable.DimCovers | DMD/DMD/eh.c:100-108 | guards already emitted lie below the cursor, those to come not |
| ExceptionTableReader.RoundTrip | DMD/DMD/eh.c:62-97 | from the bytes alone: the function and the two frame offsets of the header, the number of guards, and for each index the range, parent and handlers of its try block, or that there is none |
| TryNesting.MarksEnd | DMD/DMD/s2ir.c:1423-1458 | in the block list of nested try statements the guarded range of every try block ends, and holds exactly the blocks guarded by it or by something inside it |
| TryNesting.EndIsEnd | DMD/DMD/eh.c:134-144 | the search for the ending block finds that end |
| TryNesting.TableRangesLaminar | DMD/DMD/eh.c:117-148 | any two ranges of the emitted table are nested or disjoint |
| TryNesting.TableParentContains | DMD/DMD/eh.c:148 | the parent index is -1 for an outermost try, or names a guard whose range contains this one |
| StructLiteral.FillHole | DMD/DMD/e2ir.c:4607-4641 | terminates; zero stores inside the struct that cover every byte from the old cursor to the new, which is at least the target and at most the size |
| StructLiteral.FillHoles | DMD/DMD/e2ir.c:4656-4672 | afterwards every byte belongs to a field or is covered by a zero store, for overlapping fields too |
| StructLiteral.ToElem | DMD/DMD/e2ir.c:4643-4766 | the hole stores, if asked for, then one store for each supplied element in order |
| StructLiteral.RunFields | DMD/DMD/e2ir.c:4675-4765 | field stores leave in each byte what the last element covering it says |
| StructLiteral.LiteralByte | DMD/DMD/e2ir.c:4643-4766 | a byte holds what the last element covering it says, or zero if no field does |
| StructLiteral.LiteralDecidesImage | DMD/DMD/e2ir.c:4654-4766 | with all fields supplied the image depends on the literal alone, whatever the memory held and however fields overlap |
| StructLiteral.DecidedExactly | DMD/DMD/e2ir.c:4654-4766 | a byte is independent of the memory before if and only if some store covers it |
| CastLowering.CastToElem | DMD/DMD/e2ir.c:3600-3850 | the conversions emitted through the `Lagain` loop, which terminates because the widths come closer |
| CastLowering.CastIsRight | DMD/DMD/e2ir.c:3600-3850 | for all integral types and values the conversions compute the value modulo the target width, or for bool whether it is non-zero |
| CastLowering.RowAgain | DMD/DMD/e2ir.c:3638-3850 | each intermediate conversion keeps the value modulo the target width and brings the widths closer |
| StringCache.StringTab.ToElem | DMD/DMD/e2ir.c:1100-1142 | the symbol returned holds exactly the literal; a new one is emitted if and only if none of the last 16 does |
| StringCache.StringTab.Search | DMD/DMD/e2ir.c:1100-1117 | finds a matching entry if the table has one |
| StringCache.StringTab.constructor | DMD/DMD/e2ir.c:1067-1071 | the cleared table |
| StringCache.SpreadGrows | DMD/DMD/e2ir.c:1119-1140 | emitting a literal keeps equal literals more than 16 apart if and only if it is not among the last 16 |
| DdocParens.StrayCloseOpen | DMD/DMD/doc.c:407-417 | a closing parenthesis has no partner if and only if the first counter is zero there |
| DdocParens.StrayOpenPending | DMD/DMD/doc.c:440-451 | an opening parenthesis has no partner if and only if the second counter is zero there |
| DdocParens.EscapeCloses | DMD/DMD/doc.c:394-429 | the first loop replaces exactly the closing parentheses without a partner |
| DdocParens.EscapeOpens | DMD/DMD/doc.c:431-456 | the second loop, run over the edited text, replaces exactly the opening parentheses without a partner |
| DdocParens.EscapeStrayParenthesis | DMD/DMD/doc.c:392-457 | the text from `start` on has exactly its unpartnered parentheses replaced, the text before is untouched |
| DdocParens.RepairBalances | DMD/DMD/doc.c:386-391 | the repaired text is balanced |
| DdocParens.BalancedHasNoStrays | DMD/DMD/doc.c:386-391 | a text is balanced if and only if every parenthesis has a partner |
| DdocParens.RepairTwice | DMD/DMD/doc.c:392-457 | a second run changes nothing, and the first one changes nothing if and only if the text is balanced |
| DdocParens.RepairLength | DMD/DMD/doc.c:415-417 | each replacement makes the text 8 longer |
| DdocParens.MacrosAreCalls | DMD/DMD/doc.c:128-129 | what the passes write are calls of the macros that are defined as the parentheses |
| DdocParens.RepairExpands | DMD/DMD/doc.c:386-391 | replacing calls of the two macros by their definitions gives the same text before and after the repair |
| DdocParens.EscapeDdocString | DMD/DMD/doc.c:364-384 | every parenthesis from `start` on is replaced |
| DdocParens.LiteralExpands | DMD/DMD/doc.c:357-363 | text escaped this way expands to exactly itself, each call standing for the parenthesis it replaced |
| MemberAccess.GetAccess | DMD/DMD/access.c:65-123 | the loop over the base classes picks the loosest access |
| MemberAccess.AccessIsBestPath | DMD/DMD/access.c:65-123 | for an instance member no inheritance path to the declaring class gives more, and one gives as much unless there is none |
| MemberAccess.PathIsNarrowest | DMD/DMD/access.c:91-112 | a path gives the narrowest protection on it, or nothing if it is private anywhere after the first hop |
| MemberAccess.StaticAccess | DMD/DMD/access.c:83-86 | a static member has its own protection through every class |
| MemberAccess.AccessRange | DMD/DMD/access.c:65-123 | inheriting never makes a member more accessible, and the result is never undefined |
| MemberAccess.AccessCheckX | DMD/DMD/access.c:132-187 | the recursive search, class by class |
| MemberAccess.CheckIsPath | DMD/DMD/access.c:132-187 | it succeeds if and only if a path that does not continue past the declaring class leads to a class that admits the member |
| MemberAccess.StaticAdmits | DMD/DMD/access.c:132-187 | what a static member misses above its declaring class: a class that gives access and has a base class, if the member is at least protected |
| MemberAccess.CheckExactly | DMD/DMD/access.c:168-184 | the search agrees with the search along all paths for every class if and only if the declaring class gives access, or the member is not static, or less than protected, or no class above the declaring class gives access and has a base class |
| MemberAccess.InstanceCheck | DMD/DMD/access.c:132-187 | for instance members it always agrees |
| MemberAccess.StaticCheckGivesUp | DMD/DMD/access.c:170-171 | four classes in line: a friend of a class above the declaring one may not use its protected static member through a class below it |
| MemberAccess.AccessCheck | DMD/DMD/access.c:194-258 | the order of the tests: public, same package, the search |
| MemberAccess.AllowedByPath | DMD/DMD/access.c:194-258 | an instance member may be used if and only if a path makes it public, the best path makes it package in the same package, or a path leads to a class that admits it |
| MemberAccess.StaticAllowed | DMD/DMD/access.c:194-258 | a static member may be used if and only if it is declared public, or package in the same package, or a path that stops at the declaring class ends at that class or, if the member is at least protected, at any class with a base class, and this class gives access |
| MemberAccess.GrantsMonotone | DMD/DMD/access.c:132-187 | giving more access never takes a member away |
| LiteralFold.ArrayLength | DMD/DMD/constfold.c:1152-1167 | the number of elements the string or array literal stands for |
| LiteralFold.Index | DMD/DMD/constfold.c:1188-1226 | the element of a string or array literal, an error if and only if the index is out of bounds and checked, and no result for an array with side effects |
| LiteralFold.Slice | DMD/DMD/constfold.c:1251-1309 | a new buffer with the bytes of the slice and a terminator, an error if and only if the bounds are wrong |
| LiteralFold.Cat | DMD/DMD/constfold.c:1365-1400 | a new buffer with the bytes of both and a terminator, if and only if the units have the same size |
| LiteralFold.CatFront | DMD/DMD/constfold.c:1426-1450 | a character in front becomes one unit of its low bytes |
| LiteralFold.JoinedElements | DMD/DMD/constfold.c:1384-1399 | units of a concatenation are the units of the parts in order |
| LiteralFold.SlicedElements | DMD/DMD/constfold.c:1277-1285 | units of a slice are the slice of the units |
| LiteralFold.SliceOfJoined | DMD/DMD/constfold.c:1251-1469 | cutting a concatenation at the seam gives back both buffers, terminators included |
| LiteralFold.JoinAssociative | DMD/DMD/constfold.c:1365-1400 | the order of folding two concatenations makes no difference |
| LiteralFold.ChainIsAsItsParts | DMD/DMD/constfold.c:1389-1393 | a chain of strings is committed to its type if and only if one of them is, a chain of arrays free of side effects if and only if all are |
| LiteralFold.SliceOfSlice | DMD/DMD/constfold.c:1251-1309 | a slice of a slice is one slice |
| LiteralFold.CharInFront | DMD/DMD/constfold.c:1435-1442 | reading the result gives the character modulo the unit width, then the string |
| NestedMembers.Dim | DMD/DMD/dsymbol.c:909-927 | the length of the flattened list |
| NestedMembers.GetNth | DMD/DMD/dsymbol.c:939-964 | the nth element of the flattened list, or none and the caller's counter advanced by exactly its length |
| NestedMembers.PlainMembers | DMD/DMD/dsymbol.c:909-927 | without attributes the flattened list is the list itself, and a null list is empty |
| NestedMembers.WrappingIsInvisible | DMD/DMD/dsymbol.c:904-906 | wrapping members in an attribute changes no number |

## Left out

- ArrayOpMeaning.MeaningPreserved: a slice that is assigned to and overlaps another slice at other elements is outside it, because then the order of the rounds shows. Targets of scalar assignments are variables; assignments and other side effects below a scalar cast, and calls, are not modelled, such an operand being a function of the variables it mentions.
- ArrayOpExact.OwnMeansExactly: analysing the body a second time is a function of operator and types; errors that it reports, and the side tables of analysis, are not modelled.
- ArrayOpCache.CachedCallPreservesMeaning: functions of the run-time library are trusted to mean what their names say. An argument is passed as it is, since the call is not analysed; sizes of arguments that differ from those of the parameters are not modelled.
- Casts to an array type are never accepted, so only the name and the loop body of such an expression are modelled.
- The string table behind `arrayfuncs` is a map; it is keyed by the name.
- CppDemangle.RoundTrip: types nested in types (reported as an error by the code) and `lazy` parameters are not covered, and symbols and parameters come back up to the printer's identifications; conformance to the C++ ABI is not claimed, since a component is numbered before its operands here. The extra underscore of Mach-O names is not modelled.
- ExceptionTableReader.RoundTrip: assumes the table and all offsets fit the 32-bit fields; the wrap-around beyond that is modelled in the bytes but not read back.
- TryNesting.TableRangesLaminar: assumes block offsets do not decrease along the list and that blocks come as s2ir.c makes them; later passes of the back end that move blocks are not part of this model.
- ClassCasts.CastFromClass: an offset that happens to equal `OFFSET_RUNTIME` counts as unknown, as in the code; class to class casts, whose offset is 0, and dynamic casts are not modelled.
- ClassLayout.Layout.AllocateSlots: the fields of a class enter as how far they carry the offset; deferred semantic passes that reset the layout are not modelled.
- InterfaceVtbl.ChainSharesVtbl: functions a class fills in are not modelled. The check for a base that has appeared before compares the addresses of distinct objects and never succeeds, so it is not modelled.
- StructLiteral.LiteralDecidesImage: is stated for `soffset` 0, which every caller uses; `ToElem` shows that hole stores ignore it. Element expressions are byte strings; side effects of evaluating them are not modelled.
- CastLowering.CastIsRight: covers the integral rows; floating, imaginary and complex rows are not modelled. A conversion is taken to extend to the width of its result type.
- StringCache.StringTab.ToElem: covers dynamic array literals; the data emitted for a literal is taken to be determined by module, length, unit size and bytes.
- DdocParens.EscapeStrayParenthesis: the warnings are left out.
- MemberAccess.AccessCheckX: `hasPrivateAccess` and `isFriendOf` enter as the set of classes that give access, `hasPackageAccess` as its outcome; members have a protection other than PROTundefined, on which the code asserts.
- LiteralFold.ArrayLength: associative array literals are not modelled.
- LiteralFold.Index: associative array literals are not modelled.
- LiteralFold.Cat: UTF encoding of a character behind a string, null operands and associative arrays are not modelled; the type of a result is the caller's.
- Reserving memory in an `OutBuffer` and moving its bytes is not modelled; a buffer is the bytes in use.
- Parsing, error messages, file output, the object file writer and template deduction would add no property of this kind.
