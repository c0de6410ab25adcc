# DragonFFI: a verified model of the type printer, the wrappers and the layouts

DragonFFI compiles C code with Clang, imports the C types it finds, and calls functions
through generated C wrappers. Its own core is a small compiler over a graph of C types. This
project models that core in Dafny and proves what it promises.

Types are one algebraic datatype (`Types.dfy`): void, basic types, enums, pointers, arrays,
functions, and composites by identity, with a `Graph` that gives composites their bodies. The
components are built on it:

- **Printing C.** `Declarators` holds the text the printer writes and an independent
  recursive-descent parser for C declarations; `DeclOrder` holds the order in which
  composites are declared, and `Occurrences` says the same by the places at which composites
  occur in types; `TypePrinting` holds the printer itself, a class with the four
  pieces of state of the original. `Wrappers`, `Units` and `Compiles` do the same for whole
  generated files: what the generator writes, how C reads it, and whether a C compiler
  accepts it.
- **Flattening and layout.** `Inliner` and `FlatLayout` cover anonymous members, `Radix`,
  `Broadcast` and `Arrays` strides and broadcasting, `Formats` the portable format strings.
- **Runs.** `WrapperCache`, `Interner`, `Sharing` (the two together), `Ownership`, `PythonBuffer` (with `Utf8`) and `Calls`
  state what holds over any sequence of operations; `Import` covers the walk over debug types.

`dafny verify dfyconfig.toml` checks everything.

## Main results

1. **Printing is inverted by parsing, for exactly the types where that is possible.**
   `Declarators.RoundTrip` and `TextRecovers`. The accumulator law behind it, `TextReads`, says
   what the declarator built so far means for the type still to be printed. The law holds for
   every type because `Reading` says what C reads even where that is not what was meant.
2. **Declaration order.** `DeclOrder.OrderTheorem`: the printer puts every definition after
   the definitions it needs, whatever it is asked to print, if and only if no composite is
   needed by one that printing it leads to; for given requests only the part of the graph
   they lead to matters. Where members hold no function types this is C's own rule that no
   composite contains itself (`Occurrences.ContainmentOrder`). `EveryPrinting` holds on every graph, cyclic ones included, and says
   exactly what is defined.
3. **Generated files compile.** `Compiles.UnitTheorem` holds for every list of wrappers of
   any function types on any graph. `Compiles.CompilesTheorem`: whether a text is accepted by
   the C rules modelled can be told from the requests alone, by `AllUsable`, if and only if
   the graph is sortable. `Units.WrapperReads`: C reads each wrapper as one call, and as the
   call that was meant if and only if its types are printable (`WrapperIsMeant`).
4. **Inlining is lookup through anonymous members**, for any order of the type table
   (`Inliner`), and flattened members are safe to write (`FlatLayout`).
5. **The fast broadcast refines the slow one**, and a vectorised call computes every element
   from the elements of the same index (`Broadcast.RunVectorized`).
6. **Format strings** describe the right bytes exactly for packed types (`Formats`).
7. **Run theorems** for the caches, the interner, ownership and the UTF-8 stream buffer.
   `WrapperCache.RunCache` includes the files: on a sortable graph a session stops, because a
   wrapper file is rejected or a wrapper is missing, exactly when an operation is not `Fine`.

## What the code does that its documentation does not say

- A function type without a name, which is what a parameter of function type would be, is
  printed as `T ( attr )(params)`. C reads that as a function without parameters that returns
  a function. `Declarators.Printable` is the exact condition.
- A function type whose one parameter is void reads back as one without parameters, while its
  wrapper passes one argument, which is void, so no file with that wrapper compiles
  (`Compiles.LoneVoidIsRejected`). Import drops a trailing void parameter only if others stand
  before it, so such a type arises where debug information gives a function type an unspecified
  parameter alone. Functions declared as `f()` do not get one in the repository's tests; that
  function types below a pointer can is an assumption about Clang.
- Parameters and results are printed in Full mode even below a pointer, so a struct that holds
  another by value, which holds a callback taking the first by value, is printed in an order
  no compiler accepts although the same declarations are legal in another order
  (`Compiles.CallbackCycle`).
- A struct passed as a variadic argument is only declared forward, and a variadic call is
  wrapped in a file of its own, so the wrapper compiles only if the call's own parameters and
  result, or types inside its variadic arguments, lead to the struct
  (`Compiles.AloneIsAccepted`, with `VariadicStruct` and `VariadicStructOfParam` as examples).
- `getWrapperLLVMFunc` on a variadic call that was never wrapped takes a number for which no
  wrapper exists; afterwards the caches are no longer sound
  (`WrapperCache.WrapperTable.GetWrapperLLVMFunc`).
- Every request for an array of const elements makes a new object, which may be handed out later
  for an array of plain elements (`Interner.RunCtx`). So two
  functions of the same signature that take a pointer to such an array do not share a wrapper
  (`Sharing.WrapTwice`); function types that differ only in the const of their result share
  one (`Sharing.WrapFunctions`).
- The portable format of a complex number of two floats is that of an unsigned integer of eight
  bytes (`Formats.BasicUnitMeans`).
- The buffer exported for an array is writable even if the array object is const
  (`Arrays.GetBufferInfo`).
- A stream buffer of fewer than four bytes, which the constructor accepts, is overrun by valid
  text (`PythonBuffer.CapacityTheorem`).

## Model

| member | source | states |
|---|---|---|
| `Declarators.TextReads` | lib/types_printer.cpp:95-173 | the accumulator law: printing a type around a declarator that C reads as `d` is read as the type `d` builds from that type, wherever a declaration may end |
| `Declarators.RoundTrip` | lib/types_printer.cpp:95-173 | the printed text of any type is read as its `Reading` under its name, and as the type itself (const dropped, enums as int, convention as attribute) if and only if the type is printable |
| `Declarators.ReadingIsView` | lib/types_printer.cpp:105-127 | what C reads is what was meant if and only if no nameless function, lone void parameter or parameterless variadic function occurs |
| `Declarators.TextRecovers` | lib/dffi_api.cpp:474-516 | from the text of a printable type the type is recovered up to const, enum identity, the last-error flag and the difference between the three conventions without attribute |
| `DeclOrder.RunInvariant` | lib/types_printer.cpp:128-229 | any printing started in a good state keeps tags injective and stable, declarations distinct, and what is being built unchanged; all it comes across is named, all it meets in Full mode is declared |
| `DeclOrder.RunOrdered` | lib/types_printer.cpp:180-229 | if what the events lead to is sortable, definitions stay in order in the middle of any nesting |
| `DeclOrder.DefinedIsReached` | lib/types_printer.cpp:180-201 | a composite is defined if and only if a Full event leads to it |
| `DeclOrder.EveryPrinting` | lib/types_printer.cpp:128-229 | on every graph, after any outermost calls, exactly the composites the calls lead to in Full mode are defined, each once, nothing is left half built, and no tag is shared |
| `DeclOrder.LaterCallsOnlyAdd` | lib/types_printer.cpp:147-155 | later calls never change a tag or withdraw or reorder a declaration |
| `DeclOrder.SortableIsOrdered` | lib/types_printer.cpp:105-229 | if the part of the graph the calls lead to is sortable, every definition follows the definitions of all it contains by value, arrays included |
| `DeclOrder.UnsortableIsDisordered` | lib/types_printer.cpp:186-200 | for every violation of sortability there is a request that is printed out of order |
| `DeclOrder.OrderTheorem` | lib/types_printer.cpp:105-229 | sortable if and only if every sequence of outermost calls is printed in order |
| `Occurrences.EventsAreOccurrences` | lib/types_printer.cpp:95-173 | the printer comes across every place at which a composite occurs in a type: in Forward mode right below a pointer, whatever its const, in Full mode right below an array or as parameter or result |
| `Occurrences.NeedsAreHeld` | lib/types_printer.cpp:218-229 | what a definition needs are the composites it holds by value: members, and elements of arrays anywhere in them |
| `Occurrences.ContainmentOrder` | lib/types_printer.cpp:95-229 | where members hold no function types, every printing is in order if and only if no composite contains itself by value at any depth |
| `Occurrences.ForwardTheorem` | lib/types_printer.cpp:203-216 | a composite that is not defined is declared forward if and only if it was come across in Forward mode, and nothing is declared forward after its definition |
| `Occurrences.PointeesAreForward` | lib/types_printer.cpp:95-104 | a composite that occurs only right below pointers is never defined, and is declared forward if a request mentions it |
| `TypePrinting.TextStable` | lib/types_printer.cpp:147-155 | text already written stays right when more composites are named |
| `TypePrinting.TypePrinter.constructor` | lib/types_printer.cpp:5-178 | a new printer is the initial state |
| `TypePrinting.TypePrinter.PrintDef` | lib/types_printer.cpp:5-178 | terminates on cyclic graphs; writes the text of the type, and the printer's state and its stream of whole declarations become those of the run over the occurrences of composites in the type |
| `TypePrinting.TypePrinter.PrintComposite` | lib/types_printer.cpp:128-160 | one composite: the step of its mode, then its tag |
| `TypePrinting.TypePrinter.PrintTag` | lib/types_printer.cpp:138-155 | a composite gets the next free tag once and keeps it, and the stream stays right |
| `TypePrinting.TypePrinter.PrintParams` | lib/types_printer.cpp:113-124 | the parameter loop writes the parameter list and plays its composites in order |
| `TypePrinting.TypePrinter.AddDecl` | lib/types_printer.cpp:180-201 | defines a composite unless it was started, its needs first |
| `TypePrinting.TypePrinter.AddForwardDecl` | lib/types_printer.cpp:203-216 | declares forward what is neither started nor declared forward |
| `TypePrinting.TypePrinter.PrintDeclImpl` | lib/types_printer.cpp:218-229 | the text of a definition, written with the tags in use at its end |
| `TypePrinting.TypePrinter.PrintFields` | lib/types_printer.cpp:221-227 | the field loop writes numbered members in declaration order |
| `Wrappers.GenHead` | lib/dffi_impl.cpp:411-419 | the head of a wrapper, with the store if and only if the result is not void |
| `Wrappers.GenArg` | lib/dffi_impl.cpp:423-424 | one dereferenced cast of an argument entry |
| `Wrappers.GenArgs` | lib/dffi_impl.cpp:420-438 | both argument loops together write all arguments, numbered through, with commas between |
| `Wrappers.GenFuncTypeWrapper` | lib/dffi_impl.cpp:409-440 | the generator writes the wrapper's text with the final tags and plays its composites |
| `Units.WrapperReads` | lib/dffi_impl.cpp:409-440 | for every function type, C reads the wrapper as one call through the function pointer whose k-th argument is the k-th entry as the k-th type, parameters then variadic arguments, stored if and only if not void; types are as C reads them |
| `Units.WrapperIsMeant` | lib/dffi_impl.cpp:409-440 | that call has the types that were meant if and only if they are printable |
| `Compiles.CallOkIff` | lib/dffi_impl.cpp:413-436 | the call is legal, in number, types and completeness of its arguments, if and only if no argument is void, no parameter is a bare function type, and the composites among the variadic arguments are defined; those of parameters and result always are |
| `Compiles.UnitTheorem` | lib/dffi_impl.cpp:580-587 | the file generated for any function types on any graph parses into the declarations and one wrapper per request, and is legal if and only if the declarations are in order, the wrappers have different names, and every call is usable; a composite as variadic argument is usable if and only if what some wrapper of the file passes or returns leads to it |
| `Compiles.ReorderedOk` | lib/dffi_impl.cpp:580-587 | the same for the declarations in any order |
| `Compiles.UnitIsMeant` | lib/dffi_impl.cpp:580-587 | the whole file is read as it was meant if and only if every function type, argument type and member it prints is printable |
| `Compiles.SortableIsAccepted` | lib/dffi_impl.cpp:512-556 | if the part of the graph that is printed is sortable, the file is accepted if and only if the wrappers have different names and every call is usable |
| `Compiles.DisorderIsRejected` | lib/types_printer.cpp:186-200 | for every violation there is one wrapper, with a usable call, whose file is rejected |
| `Compiles.CompilesTheorem` | lib/dffi_impl.cpp:580-587 | for every list of wrappers, acceptance is having different names and usable calls, if and only if the graph is sortable |
| `Compiles.WrapperCode` | lib/dffi_impl.cpp:512-587 | one printer for all wrappers writes exactly the file the theorems are about |
| `Compiles.CallbackCycle` | lib/types_printer.cpp:117-126 | two structs whose wrapper file is rejected although the same declarations in the other order are accepted |
| `Compiles.AloneIsAccepted` | lib/dffi_impl.cpp:645-655 | for every function type and variadic list, the call in a file of its own is accepted only if its arguments are plain and what its variadic arguments need is reached from its own types, and exactly then if that part of the graph is sortable |
| `Compiles.VariadicStruct` | lib/dffi_impl.cpp:433-436 | on every graph, the wrapper of a call of `int f(int, ...)` with a struct as variadic argument is rejected |
| `Compiles.VariadicStructOfParam` | lib/dffi_impl.cpp:422-436 | the wrapper of a call of `void f(struct S, ...)` with another `struct S` is accepted |
| `Compiles.LoneVoidIsRejected` | lib/dffi_impl.cpp:422-424 | on every graph, a file with the wrapper of a function type whose one parameter is void is rejected |
| `Inliner.MergedShows` | lib/anon_member_inliner.cpp:40-55 | keeping the named fields and shifting in the members of the anonymous ones shows exactly the members visible along paths |
| `Inliner.VisibleMeans` | lib/dffi_types.cpp:245-248 | the members of a composite are its fields, but for structs and unions named `__dffi_anon_` and anything, and the members of these with the offsets added |
| `Inliner.CompositeTable.constructor` | lib/dffi_types.cpp:250-259 | the field maps as setting the bodies leaves them |
| `Inliner.CompositeTable.Collect` | lib/anon_member_inliner.cpp:29-51 | erases exactly the anonymous composite members and lists all of their members, in whatever order the maps give |
| `Inliner.CompositeTable.CollectOne` | lib/anon_member_inliner.cpp:42-50 | every member of one anonymous member, with summed offset |
| `Inliner.CompositeTable.InlineAnonymousMembers` | lib/anon_member_inliner.cpp:27-56 | afterwards the map shows exactly the visible members, and no other map changed |
| `Inliner.CompositeTable.InlineImpl` | lib/anon_member_inliner.cpp:60-83 | the memoised recursion finishes a composite after its anonymous members and touches no finished one |
| `Inliner.CompositeTable.VisitMembers` | lib/anon_member_inliner.cpp:62-78 | all anonymous members are visited, in any order, before their parent is changed |
| `Inliner.CompositeTable.InlineCompositesAnonymousMembers` | lib/anon_member_inliner.cpp:85-92 | for any order of the table, every composite ends with exactly its visible members |
| `Inliner.CompositeTable.GetField` | lib/dffi_types.cpp:236-243 | lookup finds the one member of that name along anonymous members, and fails if and only if there is none |
| `Inliner.RunLookups` | lib/anon_member_inliner.cpp:27-92 | setting bodies, inlining in any order and looking fields up answers as lookup through anonymous members does |
| `Inliner.AnswerFinds` | lib/anon_member_inliner.cpp:33-50 | an answer is the member of the nameless struct or union with the offsets added, and every other field under its own name |
| `FlatLayout.VisibleInBounds` | lib/anon_member_inliner.cpp:41-55 | every flattened member lies inside its composite |
| `FlatLayout.OverlapPartsAtUnion` | lib/anon_member_inliner.cpp:41-55 | two flattened members share a byte only if the paths to them part at a union |
| `FlatLayout.OtherMembersAreSafe` | bindings/python/cobj.cpp:552-565 | members whose paths do not part at a union never share a byte |
| `FlatLayout.CompositeObj.SetValue` | bindings/python/cobj.cpp:552-559 | stores the value unless const, and leaves the bytes of every member that shares none |
| `FlatLayout.CompositeObj.GetValue` | bindings/python/cobj.cpp:561-565 | reads the member's bytes, so it returns what was stored |
| `Radix.DigitsCount` | third-party/pybind11/numpy.h:1584-1594 | the k-th index is in the shape and has position k |
| `Radix.LinearInjective` | third-party/pybind11/numpy.h:1584-1594 | different indices have different positions |
| `Broadcast.TotalSize` | third-party/pybind11/buffer_info.h:69-71 | the size loop computes the product of the shape |
| `Broadcast.ComputeCStrides` | third-party/pybind11/buffer_info.h:19-28 | the loop from the right gives row-major strides |
| `Broadcast.MakeIterator` | third-party/pybind11/numpy.h:1546-1554 | each precomputed step is the stride of its dimension less the way back over all later dimensions |
| `Broadcast.InitCommonIterator` | third-party/pybind11/numpy.h:1604-1628 | dimensions are aligned on the right, and broadcast ones weigh nothing |
| `Broadcast.AddressIsOwn` | third-party/pybind11/numpy.h:1613-1626 | the address for an index of the broadcast shape is that of the buffer's own element: the last coordinates of the index, with 0 along dimensions of size one |
| `Broadcast.AdvanceLinear` | third-party/pybind11/numpy.h:1584-1594 | one carry through the index is one more in row-major order |
| `Broadcast.AdvanceDot` | third-party/pybind11/numpy.h:1556-1594 | adding one precomputed step moves the address to that of the next index |
| `Broadcast.MultiArrayIterator.constructor` | third-party/pybind11/numpy.h:1570-1582 | starts at the first index with every pointer at its base |
| `Broadcast.MultiArrayIterator.Next` | third-party/pybind11/numpy.h:1584-1594 | after k steps the index is the k-th one and every pointer is at base plus index times weights |
| `Broadcast.MultiArrayIterator.IncrementAll` | third-party/pybind11/numpy.h:1630-1634 | one addition per buffer keeps all pointers at the index |
| `Broadcast.ApplyBroadcast` | third-party/pybind11/numpy.h:1918-1935 | call k gets the elements of the k-th index of every buffer |
| `Broadcast.ApplyTrivial` | third-party/pybind11/numpy.h:1892-1916 | call k gets base plus k items, singletons staying |
| `Broadcast.BroadcastShape` | third-party/pybind11/numpy.h:1647-1676 | a shape to which all arguments conform and no larger than needed, or a genuine conflict |
| `Broadcast.Classify` | third-party/pybind11/numpy.h:1678-1731 | the C case is reported exactly when every buffer is a singleton or row-major of full size; the Fortran case only when the same holds column-major |
| `Broadcast.IsCContiguous` | third-party/pybind11/numpy.h:1695-1709 | true exactly for row-major strides |
| `Broadcast.IsFContiguous` | third-party/pybind11/numpy.h:1711-1725 | true exactly for column-major strides |
| `Broadcast.CTrivialAddress` | third-party/pybind11/numpy.h:1901-1914 | in the C case an element is at base plus its row-major position times the bump |
| `Broadcast.FTrivialAddress` | third-party/pybind11/numpy.h:1901-1914 | in the Fortran case the same with the column-major position |
| `Broadcast.FastRefinesSlow` | third-party/pybind11/numpy.h:1893-1935 | in the C case both ways call with the same addresses, element by element |
| `Broadcast.Vectorize` | third-party/pybind11/numpy.h:1880-1886 | by whichever way, each element of the result is computed at the addresses of its index |
| `Broadcast.RunVectorized` | third-party/pybind11/numpy.h:1852-1888 | fails if and only if two arguments disagree on a dimension; otherwise the shape is the smallest to which all arguments broadcast, with one call per element, each from the arguments' own elements for its index, scalars and empty results included |
| `Arrays.FromArrayTy` | lib/dffi_types.cpp:284-294 | the lengths of all levels and the unqualified innermost element |
| `Arrays.GetBufferInfo` | bindings/python/cobj.cpp:508-539 | the exported buffer covers the array exactly, with row-major strides; it is read-only only as plain bytes of a const object |
| `Arrays.StridesLoop` | bindings/python/cobj.cpp:525-531 | the stride loop agrees with row-major strides |
| `Arrays.SizeIsProduct` | include/dffi/types.h:322 | the size of a nested array is the product of its lengths times the element size |
| `Arrays.StridesAreGeps` | bindings/python/cobj.h:468-471 | index times strides is one GEP per level |
| `Arrays.ElementInBounds` | bindings/python/cobj.h:468-471 | an element lies inside the array |
| `Arrays.ElementsAreApart` | bindings/python/cobj.cpp:517-536 | different in-range indices have disjoint elements |
| `Formats.ShowReads` | bindings/python/cobj.cpp:437-472 | every written format is read back as its units, repeat counts included |
| `Formats.FormatSize` | bindings/python/cobj.cpp:437-472 | a format never describes less than the type's size, and exactly that if and only if the fields are in order and disjoint at every level |
| `Formats.FormatOffsets` | bindings/python/cobj.cpp:447-465 | unpacking a packed type finds every leaf field, recursively, at its absolute offset and nothing else |
| `Formats.FormatTheorem` | bindings/python/cobj.cpp:482-494 | both together, about what is read from the written characters |
| `Formats.BasicUnitSize` | bindings/python/cobj.cpp:374-417 | the code chosen for a basic type has its size |
| `Formats.BasicUnitMeans` | bindings/python/cobj.cpp:374-417 | a basic type is unpacked as one signed, unsigned or floating value of its size, or as bytes, for every kind but a complex of two floats |
| `Formats.FieldIsUnpacked` | bindings/python/cobj.cpp:447-465 | whatever a field of a packed struct unpacks to, the struct unpacks to at the field's offset |
| `Formats.OthersAreBytes` | bindings/python/cobj.cpp:440-471 | unions, arrays and functions are written as bytes, enums as int, pointers as one unsigned integer |
| `Formats.AddPads` | bindings/python/cobj.cpp:455-463 | the padding loop writes that many pad codes |
| `Formats.BasicFormat` | bindings/python/cobj.cpp:374-417 | the same for every basic type |
| `Formats.SizedFormat` | bindings/python/cobj.cpp:402-434 | the same for every size, as the switches of basic types and pointers write it |
| `Formats.PlainFormat` | bindings/python/cobj.cpp:440-471 | a type that is not a struct is written as one code, which is read back as no padding and exactly the size of the type |
| `Formats.StructFormat` | bindings/python/cobj.cpp:447-465 | the field loop writes padding, field and final padding |
| `Formats.FormatDescriptor` | bindings/python/cobj.cpp:437-472 | the recursive writer writes the units the theorems are about |
| `WrapperCache.WrapperTable.constructor` | lib/dffi_impl.cpp:387-407 | an empty table is sound |
| `WrapperCache.WrapperTable.GetWrapperId` | lib/dffi_impl.cpp:387-407 | finds the number of a request, compared by type objects, or takes the next, in one of the two caches, which share all numbers given out |
| `WrapperCache.WrapperTable.CompileWrappers` | lib/dffi_impl.cpp:580-606 | the wrappers generated get a file name of their own, and reach the engine if C accepts the file; otherwise the process stops |
| `WrapperCache.WrapperTable.GetWrapperAddress` | lib/dffi_impl.cpp:608-660 | returns the wrapper generated for this request, found or compiled now, which wraps the type of its object with the types of its variadic arguments in order; what was there stays; on a sortable graph the process stops exactly if the request is not usable |
| `WrapperCache.WrapperTable.GetWrapperLLVMFunc` | lib/dffi_impl.cpp:626-643 | finds the wrapper and leaves the caches sound if and only if the type is not variadic or that call was wrapped before |
| `WrapperCache.WrapperTable.Compile` | lib/dffi_impl.cpp:442-578 | a compilation, eager or lazy, successful or not, keeps the caches sound and, if eager, wraps every function; on a sortable graph the process stops exactly if an eager one declares a function that is not usable |
| `WrapperCache.WrapperTable.MakeWrappers` | lib/dffi_impl.cpp:512-570 | the wrappers of one unit go to one file |
| `WrapperCache.WrapperTable.GenerateAll` | lib/dffi_impl.cpp:518-556 | the loop numbers every new function type once |
| `WrapperCache.RunCache` | lib/dffi_impl.cpp:387-660 | over any run, requests share a wrapper exactly when they name the same type objects, every answer is the wrapper of that request, file names never repeat, and every wrapper file is either one call or has no variadic arguments and is accepted, but for the last if the process stopped; on a sortable graph it stops exactly when an operation is not fine, which can be told from the types |
| `WrapperCache.ShapedIsAccepted` | lib/dffi_impl.cpp:549-555 | on a sortable graph a wrapper file is accepted exactly when each of its wrappers would be alone |
| `Sharing.WrapFunctions` | lib/dffi_impl.cpp:387-396 | through interner and cache, function types share a wrapper exactly when their keys are equal up to the const of the result, and the wrapper is that of a type with an equal key; all are wrapped if all are usable |
| `Sharing.ImportTwice` | lib/dffictx.cpp:52-74 | importing the same signature with a pointer to an array twice gives one object exactly when the elements are not const |
| `Sharing.WrapTwice` | lib/dffi_impl.cpp:387-396 | so two such functions, if usable, share their wrapper exactly when the elements are not const |
| `Calls.Specialise` | lib/dffi_impl.cpp:695-713 | the type of one variadic call has the fixed parameters and then the arguments' types |
| `Calls.PreparePointers` | bindings/python/cobj.cpp:623-645 | one pointer per argument in order, or an error exactly on a wrong count |
| `Calls.CallFixed` | bindings/python/cobj.cpp:623-652 | an error exactly on a wrong count; otherwise the wrapper the table gave for the function reads each prepared pointer once, as the type of its parameter, and none beyond |
| `Calls.CallVariadic` | bindings/python/cobj.cpp:608-621 | the array holds the arguments in order, and the wrapper the table gives for this call, as C reads it, reads each entry once, the fixed ones as their parameters' types and the others as the types of the arguments, and none beyond |
| `Calls.ReadsExactly` | lib/dffi_impl.cpp:420-438 | for every function type, the wrapper, as C reads it, uses entries 0, 1, ... of the argument array once each and no other, as the parameters and then the variadic types in turn, and stores the result if and only if there is one |
| `Interner.TagLaws` | include/dffi/types.h:209-231 | a qualified type is determined by its type and its const bit |
| `Interner.HashIgnoresConst` | include/dffi/types.h:335-345 | the hash does not depend on const |
| `Interner.PackInjective` | lib/dffictx.h:58-74 | the packed flags determine convention, variadic and last-error |
| `Interner.HashFunKey` | lib/dffictx.h:101-109 | the hash loop computes the fold over the parameters |
| `Interner.EqualKeysHashEqual` | lib/dffictx.h:80-109 | keys equal for the table hash equal, though equality ignores the const of the result |
| `Interner.EqualKeysAre` | lib/dffictx.h:80-86 | two keys are equal if and only if nothing but the const of the result differs |
| `Interner.Ctx.constructor` | lib/dffictx.cpp:40-74 | empty tables are sound |
| `Interner.Ctx.GetPtrType` | lib/dffictx.cpp:40-50 | finds or adds a pointer type |
| `Interner.Ctx.GetArrayType` | lib/dffictx.cpp:52-62 | finds a matching array type or adds one; const elements match none |
| `Interner.Ctx.GetFunctionType` | lib/dffictx.cpp:64-74 | finds the function type with an equal key or adds one |
| `Interner.Serve` | lib/dffictx.cpp:40-74 | one request keeps all earlier answers |
| `Interner.RunCtx` | lib/dffictx.cpp:40-74 | over any run: pointers are shared exactly for equal qualified pointees, functions exactly for equal keys; an array request gets an object given out before exactly when its elements are not const and an array of that length and element type, const or not, was asked for before |
| `Import.Canonical` | lib/dffi_impl.cpp:133-148 | terminates at the end of the typedef and qualifier chain |
| `Import.FunctionOf` | lib/dffi_impl.cpp:1111-1131 | variadic exactly if an unspecified parameter follows others, which is then dropped; so a variadic function always has a fixed parameter |
| `Import.WalksAgree` | lib/dffi_impl.cpp:962-981 | the qualified walk finds the type of the unqualified one, const exactly if the chain has a const, const void included |
| `Import.DenotesIff` | lib/dffi_impl.cpp:983-1131 | import finds the one C type that a debug type denotes: pointees and elements with their const, array lengths, arrays without length as pointers, composites, enums, basic types, and functions with their parameters |
| `Import.AliasesAreInvisible` | lib/dffi_impl.cpp:962-981 | two references with the same canonical type and constness import as the same qualified type |
| `Ownership.StepSound` | bindings/python/cobj.h:65-142 | every operation keeps one owner per live block |
| `Ownership.OwnershipTheorem` | bindings/python/cobj.h:54-142 | over any run each adopted block has one owner until it is freed, once; other memory is never freed; when all objects are gone every adopted block was freed exactly once |
| `Ownership.DataObj.MoveFrom` | bindings/python/cobj.h:70-74 | takes kind and pointer and leaves an empty view |
| `Ownership.DataObj.Release` | bindings/python/cobj.h:88-93 | gives up the pointer and becomes an empty view |
| `Ownership.DataObj.Clear` | bindings/python/cobj.h:110-123 | frees exactly what it owns |
| `Ownership.DataObj.Assign` | bindings/python/cobj.h:78-86 | frees what was owned and takes over, except from itself |
| `Ownership.Program.Execute` | bindings/python/cobj.h:65-142 | every operation on the objects of a program is the step the theorem is about |
| `Ownership.RunProgram` | bindings/python/cobj.h:54-142 | a program of such operations frees what the theorem says |
| `PythonBuffer.RemainderIsTail` | third-party/pybind11/iostream.h:58-91 | on valid text the bytes held back are exactly the incomplete last character of RFC 3629 |
| `PythonBuffer.RemainderMeans` | third-party/pybind11/iostream.h:58-91 | on any bytes, what is held back starts at the last leading byte, at most three from the end, if that announces more bytes than there are |
| `PythonBuffer.PythonBuf.constructor` | third-party/pybind11/iostream.h:120-124 | an empty buffer of any capacity |
| `PythonBuffer.PythonBuf.Utf8Remainder` | third-party/pybind11/iostream.h:58-91 | the backward search computes the remainder |
| `PythonBuffer.PythonBuf.Sync` | third-party/pybind11/iostream.h:94-115 | no byte is lost; on valid text only whole characters are written and the incomplete one stays |
| `PythonBuffer.PythonBuf.MoveToFront` | third-party/pybind11/iostream.h:107-110 | the overlapping move is right |
| `PythonBuffer.PythonBuf.Put` | third-party/pybind11/iostream.h:47-53 | one byte is added to what was fed, and what is then held is the next state of the capacity theorem |
| `PythonBuffer.PythonBuf.Overflow` | third-party/pybind11/iostream.h:47-53 | the byte goes to the reserved place before syncing |
| `PythonBuffer.RunStream` | third-party/pybind11/iostream.h:47-124 | over any writes and flushes on any capacity, an overrun is exactly what the capacity theorem is about; without one, what was written followed by what is held is what was fed, and for a beginning of valid UTF-8 every chunk is whole characters and after a flush exactly the incomplete tail is held |
| `PythonBuffer.LongCharOverruns` | third-party/pybind11/iostream.h:47-53 | a character longer than the buffer overruns it |
| `PythonBuffer.CapacityTheorem` | third-party/pybind11/iostream.h:120-124 | no bytes, and no valid text, overrun the buffer if and only if its capacity is at least four |

## Left out

- Clang set-up, compilation, the JIT engine, the virtual file system and dynamic libraries: foreign code. Compiling accepted wrappers puts them into the engine, and whether user code compiles is a parameter.
- Python registration, conversion of Python values to C values, casting templates, iterators and error classes: glue over code outside the repository.
- Lexing: text is a sequence of tokens, with tags, field names and wrapper names as numbered tokens. White space, newlines and the spelling of decimal numbers in C text are not modelled.
- The printer's mode in which enums are declared rather than viewed as int.
- Tag scopes: a tag that first appears inside a parameter list is taken as visible afterwards; C gives it prototype scope and clang warns.
- C constraints other than those of `Compiles.UnitOk`, such as a void parameter beside others, arrays of functions, and functions returning arrays. An empty parameter list is taken as a prototype of no parameters, and an argument must have its parameter's type without conversion; the generated calls differ from C in neither.
- Interner.Ctx.GetArrayType: any matching entry may be found, because the hash table's probing order is not modelled; hash table internals are left out.
- WrapperCache.RunCache: composite bodies are those of one graph for the whole run, and whether a wrapper file compiles is decided by the C rules of `Compiles`.
- WrapperCache.WrapperTable.GetWrapperId: the variadic key is taken by value, while the source stores a reference to the caller's array, which may be gone when the cache is read.
- Inliner.CompositeTable.InlineAnonymousMembers: offsets are unbounded, while the source adds them as 32-bit numbers; the ownership of inlined fields by a vector is not modelled.
- Formats.FormatDescriptor: assumes fields inside their struct; the final padding loop of the source would otherwise run on a wrapped-around count. Native format codes and the byte-order mark are not modelled.
- Calls.CallVariadic: at least as many arguments as fixed parameters, since the source subtracts unsigned numbers unchecked; a fixed parameter exists, as import guarantees (`Import.FunctionOf`).
- Import.WalksAgree: debug types are a table in which cycles go through composites; the mapping of encodings and widths to basic types is a field of the node, and unsupported nodes, which stop the program in the source, do not occur. Only the first subrange of an array is a count.
- Ownership.OwnershipTheorem: an address is not adopted a second time, so blocks stand for allocations; `release` is called only from moves, and the typed variants of the class are not modelled.
- Broadcast.RunVectorized: the item size of a buffer is the size of the parameter type; allocation of the result array is not modelled, only which call fills which element.
- PythonBuffer.RunStream: bytes are written one at a time, and Python's `write` and `flush` do not fail; nothing is said about what happens after an overrun.
- Composite and array alignment, bitfields, flexible array members: the code supports no strong claim there.
- Sizes are those of LP64 hosts where char is signed.
