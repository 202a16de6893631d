# Type-checker symbol table and proof-obligation visitor, in Dafny

This project models the core of a small Java type checker written for a
course lab (`edu.byu.cs329.typechecker`). The core has three parts.

- **`SymbolTable`** (`ISymbolTable`) has two kinds of state:
  - the *local environment*, a list of name/type bindings scanned newest-first;
  - the *class registry*, a map from class name to a `ClassObject`, which holds fields, methods with their parameter lists, and nested-class names.

  Around that state it offers lookups, the `addLocal` / `removeLocals` pair that implements block scoping, and `getNumberLiteralType`, which classifies a numeric token as `short`, `int` or untyped.
- **`TypeCheckerVisitor`** is an AST visitor. It keeps a stack of proof-obligation lists. Each class, method and empty statement pushes a list on the way down. On the way up it wraps that list into a named container, padding an empty list with a trivially passing leaf, and appends the container to the list below. Blocks push a frame of declared names. A variable-declaration fragment binds its name to the declared type.
- **The walk** is the order in which the syntax-tree traversal calls those handlers: `visit`, then the children in source order, then `endVisit`.

## Modules

The files are verified together.

| file | module | what it holds |
|---|---|---|
| `outcomes.dfy` | `Outcomes` | `Option`, and `Outcome`, which is either a returned value or a thrown Java exception |
| `type_tokens.dfy` | `TypeTokens` | the `ISymbolTable` type tokens and `isValidType` |
| `number_literals.dfy` | `NumberLiterals` | `Short.parseShort` / `Integer.parseInt` as used by `getNumberLiteralType`, with a decimal printer as partner |
| `environments.dfy` | `Environments` | bindings, the first-match and newest-first scans, `addLocal`'s binding step, removal by name |
| `symbol_table.dfy` | `SymbolTables` | classes `ClassObject` and `SymbolTable` (imperative, with loops proved against the scans), and `removeLocals` as written |
| `proof_tree.dfy` | `ProofTrees` | obligation nodes, `addNoObligationIfEmpty`, `createProofAndAddToObligations` on the stack |
| `visitor.dfy` | `TypeChecking` | the AST shapes, one pure step per handler, and class `TypeCheckerVisitor`, whose handlers are proved against those steps |
| `traversal.dfy` | `Traversal` | the walk over a compilation unit with the corrected handlers of the two findings below, and what it preserves, builds and scopes |
| `scenarios.dfy` | `Scenarios` | small compilation units and their proof trees, and the two findings below |

## Reading of the source

- **The visitor is a skeleton.**
  - `proofStack` is declared `null`.
  - The fields `className`, `methodName`, the frame stack and `symbolTable` are used but not declared.
  - `getProofs` returns a `proofs` list that no handler writes to.

  The model follows the evident design: the proof stack starts out holding the root list, and `getProofs` returns that bottom list.
- **Where the Java stack sits.** `Deque.push`/`peek`/`pop` work at the head of the deque. In the model the head of the deque is the last element of a sequence.
- **Behaviour the model keeps that a reader might not expect.**
  - The intended block exit (`SymbolTables.SymbolTable.RemoveLocals`, `Environments.RemoveNames`) removes every binding of each name the block declared. That includes an outer, shadowed binding of the same name, which is not restored. See `Scenarios.InnerBlockUnbindsShadowedName`. As written, `removeLocals` never changes the environment at all; see the first finding below.
  - Declaring a local with an unaccepted type throws `IllegalArgumentException` and ends the walk; no failing obligation is recorded. See `Scenarios.UnknownLocalTypeThrows`.
  - A registry lookup on an unregistered class dereferences `null`, which crashes. The lookups therefore require the class to be registered.

## Model

| member | source | states |
|---|---|---|
| `TypeTokens.IsValidType` | src/main/java/edu/byu/cs329/typechecker/SymbolTable.java:148-156 | a token is accepted exactly when it is one of the eight type constants; the empty `NO_TYPE` is refused first |
| `TypeTokens.ValidTypeTokens` | src/main/java/edu/byu/cs329/typechecker/ISymbolTable.java:7-15 | there are eight accepted type tokens, all distinct and none of them the empty `NO_TYPE`; `isValidType` holds exactly for them |
| `NumberLiterals.ParseDecimal` | src/main/java/edu/byu/cs329/typechecker/SymbolTable.java:28-36 | a token that parses is non-empty, and its value's sign agrees with its leading character |
| `NumberLiterals.ParseInt` | src/main/java/edu/byu/cs329/typechecker/SymbolTable.java:32-37 | `Integer.parseInt` succeeds exactly for the numerals whose value is in the 32-bit range, with that value |
| `NumberLiterals.ParseShort` | src/main/java/edu/byu/cs329/typechecker/SymbolTable.java:28-31 | `Short.parseShort` succeeds exactly for the numerals whose value is in the 16-bit range, with that value, and only where `parseInt` agrees |
| `NumberLiterals.GetNumberLiteralType` | src/main/java/edu/byu/cs329/typechecker/SymbolTable.java:27-39 | `short` exactly for numerals in [-32768, 32767]; `int` exactly for the other numerals that fit 32 bits; no type (`null`) exactly otherwise |
| `NumberLiterals.DigitsRoundTrip` | src/main/java/edu/byu/cs329/typechecker/SymbolTable.java:27-39 | the digit string printed for n is non-empty, all digits, and reads back as n |
| `NumberLiterals.DecimalRoundTrip` | src/main/java/edu/byu/cs329/typechecker/SymbolTable.java:27-39 | parsing the canonical decimal spelling of any integer gives that integer back |
| `NumberLiterals.PlusSignAccepted` | src/main/java/edu/byu/cs329/typechecker/SymbolTable.java:29-33 | an explicit `+` is accepted and does not change the value |
| `NumberLiterals.LeadingZeroIgnored` | src/main/java/edu/byu/cs329/typechecker/SymbolTable.java:29-33 | leading zeros do not change the value |
| `NumberLiterals.LiteralTypeOfDecimal` | src/main/java/edu/byu/cs329/typechecker/SymbolTable.java:27-39 | for every integer v, its decimal spelling is typed by v's range alone |
| `NumberLiterals.NonNumeralsRejected` | src/main/java/edu/byu/cs329/typechecker/SymbolTable.java:35-37 | the empty token, a lone sign, a double sign, a decimal point and a hex prefix get no type |
| `NumberLiterals.ShortUpperEdge` | src/main/java/edu/byu/cs329/typechecker/SymbolTable.java:28-34 | "32767" is `short` and "32768" is already `int` |
| `NumberLiterals.ShortLowerEdge` | src/main/java/edu/byu/cs329/typechecker/SymbolTable.java:28-34 | "-32768" is `short` and "-32769" is already `int` |
| `NumberLiterals.IntBoundaries` | src/main/java/edu/byu/cs329/typechecker/SymbolTable.java:32-37 | the smallest and largest int are `int`; one step beyond either has no type |
| `Environments.LocalType` | src/main/java/edu/byu/cs329/typechecker/SymbolTable.java:78-86 | the answer is absent exactly when no binding has the name; otherwise it comes from the newest binding with that name |
| `Environments.FirstType` | src/main/java/edu/byu/cs329/typechecker/SymbolTable.java:42-49 | the answer is absent exactly when no entry has the name; otherwise it comes from the first entry with that name |
| `Environments.Bind` | src/main/java/edu/byu/cs329/typechecker/SymbolTable.java:141-146 | the binding succeeds exactly for an accepted type token, and otherwise throws `IllegalArgumentException`; on success the old bindings are kept as a prefix, the one new binding at the end is `(n, t)`, and the name now resolves to `t` |
| `Environments.RemoveNames` | src/main/java/edu/byu/cs329/typechecker/SymbolTable.java:159-168 | the intended removal keeps the bindings whose names are not listed, in order; its own contract gives only that the result is no longer, and the lemmas below give membership, order and lookups |
| `Environments.RemoveNamesMembers` | src/main/java/edu/byu/cs329/typechecker/SymbolTable.java:159-168 | a binding survives removal exactly when it was there and its name is not listed |
| `Environments.RemoveNamesAppend` | src/main/java/edu/byu/cs329/typechecker/SymbolTable.java:159-168 | removal distributes over concatenation, so survivors keep their order |
| `Environments.RemoveNamesTwice` | src/main/java/edu/byu/cs329/typechecker/SymbolTable.java:159-168 | removing one list of names and then another is the same as removing their concatenation |
| `Environments.RemoveNamesSameNames` | src/main/java/edu/byu/cs329/typechecker/SymbolTable.java:159-168 | only which names are listed matters, not their order or repetition |
| `Environments.RemoveNamesCommute` | src/main/java/edu/byu/cs329/typechecker/SymbolTable.java:159-168 | two removals can be done in either order |
| `Environments.RemoveNamesNone` | src/main/java/edu/byu/cs329/typechecker/SymbolTable.java:159-168 | nothing is removed when no binding has a listed name |
| `Environments.RemoveNamesAll` | src/main/java/edu/byu/cs329/typechecker/SymbolTable.java:159-168 | everything is removed when every binding has a listed name |
| `Environments.LocalTypeAfterRemove` | src/main/java/edu/byu/cs329/typechecker/SymbolTable.java:159-168 | after removal a listed name is unbound, and every other name resolves as before |
| `SymbolTables.ReturnTypeOf` | src/main/java/edu/byu/cs329/typechecker/SymbolTable.java:52-60 | the answer is absent exactly when no method has the name; otherwise it is the return type of the first method with that name |
| `SymbolTables.WithParameter` | src/main/java/edu/byu/cs329/typechecker/SymbolTable.java:212-219 | `addParameter` on the method list: every method with the given name keeps its name and return type and gains the parameter at the end of its list; every other method is unchanged |
| `SymbolTables.ParameterTypeOf` | src/main/java/edu/byu/cs329/typechecker/SymbolTable.java:63-75 | the answer is absent exactly when no method with the name has a parameter with that name |
| `SymbolTables.ParameterTypeOfAt` | src/main/java/edu/byu/cs329/typechecker/SymbolTable.java:63-75 | the first method with the name that declares the parameter gives the answer |
| `SymbolTables.FirstTypeAt` | src/main/java/edu/byu/cs329/typechecker/SymbolTable.java:43-47 | the first entry with the name gives the answer |
| `SymbolTables.LocalTypeAt` | src/main/java/edu/byu/cs329/typechecker/SymbolTable.java:79-84 | the newest binding with the name gives the answer |
| `SymbolTables.AddParameterKeepsSignatures` | src/main/java/edu/byu/cs329/typechecker/SymbolTable.java:212-219 | adding a parameter changes no method name or return type, so return-type lookups answer as before |
| `SymbolTables.AddParameterKeepsOtherMethods` | src/main/java/edu/byu/cs329/typechecker/SymbolTable.java:212-219 | parameter lookups in methods with any other name are unchanged |
| `SymbolTables.AddParameterKeepsOtherParameters` | src/main/java/edu/byu/cs329/typechecker/SymbolTable.java:212-219 | lookups of any other parameter name are unchanged |
| `SymbolTables.AddParameterIsFound` | src/main/java/edu/byu/cs329/typechecker/SymbolTable.java:212-219 | when the method exists and no parameter with that name was found before, the new parameter is found afterwards with its type |
| `SymbolTables.ClassObject.constructor` | src/main/java/edu/byu/cs329/typechecker/SymbolTable.java:186-188 | a new record has the given name and empty lists |
| `SymbolTables.ClassObject.AddField` | src/main/java/edu/byu/cs329/typechecker/SymbolTable.java:194-196 | the field is appended, and methods and nested classes are unchanged |
| `SymbolTables.ClassObject.AddMethod` | src/main/java/edu/byu/cs329/typechecker/SymbolTable.java:206-210 | the method entry is appended, and the other lists are unchanged |
| `SymbolTables.ClassObject.AddParameter` | src/main/java/edu/byu/cs329/typechecker/SymbolTable.java:212-219 | every method with the name gets the parameter appended, no other method changes, and fields and nested classes are unchanged |
| `SymbolTables.ClassObject.AddNestedClass` | src/main/java/edu/byu/cs329/typechecker/SymbolTable.java:221-223 | the nested-class name is appended, and the other lists are unchanged |
| `SymbolTables.AsWrittenOuter` | src/main/java/edu/byu/cs329/typechecker/SymbolTable.java:160-167 | the as-written for-each over the argument list can fail only with `IndexOutOfBoundsException` or `ConcurrentModificationException`, and completes normally when none of the remaining names is bound |
| `SymbolTables.AsWrittenInner` | src/main/java/edu/byu/cs329/typechecker/SymbolTable.java:161-166 | an inner scan that removed nothing leaves the argument list as it was, and a removal is never forgotten |
| `SymbolTables.SymbolTable.constructor` | src/main/java/edu/byu/cs329/typechecker/SymbolTable.java:14-24 | a new table has no locals and no classes |
| `SymbolTables.SymbolTable.ClassExists` | src/main/java/edu/byu/cs329/typechecker/SymbolTable.java:88-91 | true exactly when the class name is a key of the registry (no contract of its own; `AddClass` makes it true) |
| `SymbolTables.SymbolTable.GetFieldType` | src/main/java/edu/byu/cs329/typechecker/SymbolTable.java:42-49 | gives the type of the first field with the name, or none |
| `SymbolTables.SymbolTable.FieldExists` | src/main/java/edu/byu/cs329/typechecker/SymbolTable.java:94-101 | true exactly when `getFieldType` would find a field |
| `SymbolTables.SymbolTable.GetMethodReturnType` | src/main/java/edu/byu/cs329/typechecker/SymbolTable.java:52-60 | gives the return type of the first method with the name, or none |
| `SymbolTables.SymbolTable.MethodExists` | src/main/java/edu/byu/cs329/typechecker/SymbolTable.java:104-112 | true exactly when `getMethodReturnType` would find a method |
| `SymbolTables.SymbolTable.GetParameterType` | src/main/java/edu/byu/cs329/typechecker/SymbolTable.java:63-75 | searches every method with the name in order, and the first that declares the parameter gives its type |
| `SymbolTables.SymbolTable.ParameterExists` | src/main/java/edu/byu/cs329/typechecker/SymbolTable.java:115-127 | true exactly when `getParameterType` would find the parameter |
| `SymbolTables.SymbolTable.GetLocalType` | src/main/java/edu/byu/cs329/typechecker/SymbolTable.java:78-86 | gives the type of the newest binding with the name, or none |
| `SymbolTables.SymbolTable.LocalExists` | src/main/java/edu/byu/cs329/typechecker/SymbolTable.java:130-138 | true exactly when `getLocalType` would find a binding |
| `SymbolTables.SymbolTable.AddLocal` | src/main/java/edu/byu/cs329/typechecker/SymbolTable.java:141-146 | an accepted type returns true and appends the binding; any other type throws `IllegalArgumentException` and changes nothing; the registry is untouched |
| `SymbolTables.SymbolTable.RemoveLocals` | src/main/java/edu/byu/cs329/typechecker/SymbolTable.java:159-168 | as intended: exactly the bindings with a listed name are removed, the rest keep their order, and the registry is untouched |
| `SymbolTables.SymbolTable.RemoveLocal` | src/main/java/edu/byu/cs329/typechecker/SymbolTable.java:161-166 | the backward inner loop removes every binding with one name, and nothing else |
| `SymbolTables.SymbolTable.RemoveLocalsAsWritten` | src/main/java/edu/byu/cs329/typechecker/SymbolTable.java:159-168 | as written: the environment is never changed; the outcome follows the argument list's own removals and iterator checks |
| `SymbolTables.SymbolTable.AddClass` | src/main/java/edu/byu/cs329/typechecker/SymbolTable.java:170-172 | the class is registered with a fresh empty record; every other class keeps its record |
| `SymbolTables.IntendedRemovalShrinks` | src/main/java/edu/byu/cs329/typechecker/SymbolTable.java:159-168 | intended removal of a bound name makes the environment strictly shorter |
| `SymbolTables.RemoveLocalsAsWrittenKeepsBinding` | src/main/java/edu/byu/cs329/typechecker/SymbolTable.java:159-168 | with `x` bound and names `[x, b]`, the call as written completes, yet `x` stays bound; the intended result is empty |
| `SymbolTables.RemoveLocalsAsWrittenThrows` | src/main/java/edu/byu/cs329/typechecker/SymbolTable.java:159-168 | with `x` bound and names `[x]`, the call as written throws `ConcurrentModificationException` |
| `SymbolTables.RemoveLocalsAsWrittenOutOfBounds` | src/main/java/edu/byu/cs329/typechecker/SymbolTable.java:159-168 | with an outer `a` and the block's `x` bound and names `[x]`, the ordinary nested-block exit, the call as written throws `IndexOutOfBoundsException`; the intended removal leaves just `a` |
| `ProofTrees.NO_OBLIGATION` | src/test/java/edu/byu/cs329/typechecker/TypeCheckerVisitor.java:70-72 | the trivially passing leaf, the judgment of `true` (a constant, no contract) |
| `ProofTrees.PadIfEmpty` | src/test/java/edu/byu/cs329/typechecker/TypeCheckerVisitor.java:62-72 | the result is never empty: a non-empty list is unchanged, and an empty one becomes exactly `[NO_OBLIGATION]`; well-formedness is kept |
| `ProofTrees.CloseObligation` | src/test/java/edu/byu/cs329/typechecker/TypeCheckerVisitor.java:54-60 | the stack loses its top list; the list below keeps its contents and gains exactly the container (the name over the padded top list), which always has at least one child; the lists further down are unchanged; the stack stays well-formed |
| `ProofTrees.CloseOnto` | src/test/java/edu/byu/cs329/typechecker/TypeCheckerVisitor.java:54-60 | the same operation on a stack written out as the lists below, the one under the top, and the top |
| `ProofTrees.EmptyConstructClosesToTrivialLeaf` | src/test/java/edu/byu/cs329/typechecker/TypeCheckerVisitor.java:62-72 | a construct with no obligations closes to a container holding only the passing leaf |
| `TypeChecking.OpenObligation` | src/test/java/edu/byu/cs329/typechecker/TypeCheckerVisitor.java:31-33 | a fresh empty list goes on top of the proof stack; nothing else changes |
| `TypeChecking.CloseConstruct` | src/test/java/edu/byu/cs329/typechecker/TypeCheckerVisitor.java:54-60 | the proof stack becomes `CloseObligation` of the old one under the construct's judgment; nothing else changes |
| `TypeChecking.EnterTypeDeclaration` | src/test/java/edu/byu/cs329/typechecker/TypeCheckerVisitor.java:40-44 | an empty list goes on the proof stack and the class name on the class-name stack; nothing else changes |
| `TypeChecking.ExitTypeDeclaration` | src/test/java/edu/byu/cs329/typechecker/TypeCheckerVisitor.java:47-52 | the class name is popped and the class's obligations are closed under its judgment; nothing else changes |
| `TypeChecking.EnterMethodDeclaration` | src/test/java/edu/byu/cs329/typechecker/TypeCheckerVisitor.java:79-83 | an empty list goes on the proof stack and the method name is recorded; nothing else changes |
| `TypeChecking.EnterBlock` | src/test/java/edu/byu/cs329/typechecker/TypeCheckerVisitor.java:106-109 | an empty frame goes on the frame stack; nothing else changes |
| `TypeChecking.ExitBlock` | src/test/java/edu/byu/cs329/typechecker/TypeCheckerVisitor.java:112-115 | the innermost frame is popped and its names are removed from the environment (the intended `removeLocals`); nothing else changes |
| `TypeChecking.EnterFragment` | src/test/java/edu/byu/cs329/typechecker/TypeCheckerVisitor.java:118-136 | the corrected handler: under a declaration statement the name is bound to the declared type and added to the innermost frame, and it throws, with `IllegalArgumentException`, exactly when the type is unaccepted; under any other parent nothing changes; only the frames and the environment ever change |
| `TypeChecking.EnterFragmentAsWritten` | src/test/java/edu/byu/cs329/typechecker/TypeCheckerVisitor.java:118-136 | the handler as written: exactly the corrected handler's outcome, except that one empty list has been pushed on the proof stack |
| `TypeChecking.TypeCheckerVisitor.constructor` | src/test/java/edu/byu/cs329/typechecker/TypeCheckerVisitor.java:20-25 | the proof stack holds only the empty root list; there are no frames and no class names |
| `TypeChecking.TypeCheckerVisitor.PushProof` | src/test/java/edu/byu/cs329/typechecker/TypeCheckerVisitor.java:31-33 | the list goes on top; nothing else changes |
| `TypeChecking.TypeCheckerVisitor.PopProof` | src/test/java/edu/byu/cs329/typechecker/TypeCheckerVisitor.java:27-29 | returns the top list and removes it |
| `TypeChecking.TypeCheckerVisitor.PeekProof` | src/test/java/edu/byu/cs329/typechecker/TypeCheckerVisitor.java:35-37 | returns the top list |
| `TypeChecking.TypeCheckerVisitor.CreateProofAndAddToObligations` | src/test/java/edu/byu/cs329/typechecker/TypeCheckerVisitor.java:54-60 | the stack becomes `CloseObligation` of the old stack |
| `TypeChecking.TypeCheckerVisitor.VisitTypeDeclaration` | src/test/java/edu/byu/cs329/typechecker/TypeCheckerVisitor.java:40-44 | pushes the class name and an empty obligation list, and visits the children |
| `TypeChecking.TypeCheckerVisitor.EndVisitTypeDeclaration` | src/test/java/edu/byu/cs329/typechecker/TypeCheckerVisitor.java:47-52 | pops the class name and closes the class's obligations under its judgment |
| `TypeChecking.TypeCheckerVisitor.VisitMethodDeclaration` | src/test/java/edu/byu/cs329/typechecker/TypeCheckerVisitor.java:79-83 | pushes an empty list, records the method name, and visits the children |
| `TypeChecking.TypeCheckerVisitor.EndVisitMethodDeclaration` | src/test/java/edu/byu/cs329/typechecker/TypeCheckerVisitor.java:92-96 | closes the method's obligations under its judgment |
| `TypeChecking.TypeCheckerVisitor.VisitEmptyStatement` | src/test/java/edu/byu/cs329/typechecker/TypeCheckerVisitor.java:86-89 | pushes an empty list and visits the children |
| `TypeChecking.TypeCheckerVisitor.EndVisitEmptyStatement` | src/test/java/edu/byu/cs329/typechecker/TypeCheckerVisitor.java:99-103 | closes the statement's (empty) obligations under its judgment |
| `TypeChecking.TypeCheckerVisitor.VisitBlock` | src/test/java/edu/byu/cs329/typechecker/TypeCheckerVisitor.java:106-109 | pushes an empty frame and visits the children |
| `TypeChecking.TypeCheckerVisitor.EndVisitBlock` | src/test/java/edu/byu/cs329/typechecker/TypeCheckerVisitor.java:112-115 | with the intended `removeLocals`: pops the frame and removes its names from the symbol table's environment; the registry is untouched |
| `TypeChecking.TypeCheckerVisitor.VisitVariableDeclarationFragment` | src/test/java/edu/byu/cs329/typechecker/TypeCheckerVisitor.java:118-136 | the corrected handler: it performs `EnterFragment` and returns false (children skipped), or throws `addLocal`'s exception with the state unchanged |
| `TypeChecking.TypeCheckerVisitor.VisitVariableDeclarationFragmentAsWritten` | src/test/java/edu/byu/cs329/typechecker/TypeCheckerVisitor.java:118-136 | the handler as written: the same, after an extra push that is kept even when `addLocal` throws |
| `TypeChecking.TypeCheckerVisitor.GetProofs` | src/test/java/edu/byu/cs329/typechecker/TypeCheckerVisitor.java:138-140 | returns the root list at the bottom of the proof stack |
| `Traversal.WalkFragments` | src/test/java/edu/byu/cs329/typechecker/TypeCheckerVisitor.java:118-136 | over the corrected handlers (the intended `removeLocals` and a fragment handler without the push): the fragments of one declaration leave the proof stack, the class names, the method name and the outer frames unchanged; the only failure is an unaccepted declared type |
| `Traversal.WalkTypes` | src/test/java/edu/byu/cs329/typechecker/TypeCheckerVisitor.java:39-52 | over the corrected handlers (the intended `removeLocals` and a fragment handler without the push): a list of classes keeps the walk balanced (only the top proof list grows, at its end) and adds exactly one entry per class to it |
| `Traversal.WalkType` | src/test/java/edu/byu/cs329/typechecker/TypeCheckerVisitor.java:39-52 | over the corrected handlers (the intended `removeLocals` and a fragment handler without the push): a class keeps the walk balanced and appends exactly one container, named after the class's judgment |
| `Traversal.WalkMembers` | src/test/java/edu/byu/cs329/typechecker/TypeCheckerVisitor.java:39-52 | over the corrected handlers (the intended `removeLocals` and a fragment handler without the push): the members keep the walk balanced and the stack well-formed |
| `Traversal.WalkMember` | src/test/java/edu/byu/cs329/typechecker/TypeCheckerVisitor.java:78-96 | over the corrected handlers (the intended `removeLocals` and a fragment handler without the push): a method appends exactly one container named after its judgment and leaves its name as the current method; a field declaration changes nothing |
| `Traversal.WalkMethod` | src/test/java/edu/byu/cs329/typechecker/TypeCheckerVisitor.java:78-96 | over the corrected handlers (the intended `removeLocals` and a fragment handler without the push): a method keeps the walk balanced, appends one container named after its judgment, and sets the method name |
| `Traversal.WalkBlock` | src/test/java/edu/byu/cs329/typechecker/TypeCheckerVisitor.java:105-115 | over the corrected handlers (the intended `removeLocals` and a fragment handler without the push): a block keeps the walk balanced: stack depths, the lists below the top, the class names and the outer frames are unchanged, and the top list only grows; the frame stack and the method name are restored |
| `Traversal.WalkStatements` | src/test/java/edu/byu/cs329/typechecker/TypeCheckerVisitor.java:85-136 | over the corrected handlers (the intended `removeLocals` and a fragment handler without the push): statements keep the walk balanced and the stack well-formed |
| `Traversal.WalkStatement` | src/test/java/edu/byu/cs329/typechecker/TypeCheckerVisitor.java:85-103 | over the corrected handlers (the intended `removeLocals` and a fragment handler without the push): an empty statement appends exactly a container holding only the passing leaf |
| `Traversal.BuildProofs` | src/test/java/edu/byu/cs329/typechecker/TypeCheckerVisitor.java:138-140 | over the corrected handlers (the intended `removeLocals` and a fragment handler without the push): the root list has one well-formed entry per class declaration; the only failure is `IllegalArgumentException` |
| `Traversal.FragmentsFailOnInvalidType` | src/test/java/edu/byu/cs329/typechecker/TypeCheckerVisitor.java:122-125 | a declaration fails exactly when it has a fragment and its type is not accepted |
| `Traversal.FragmentsRecordInFrame` | src/test/java/edu/byu/cs329/typechecker/TypeCheckerVisitor.java:126-127 | the fragments' names are appended to the innermost frame in source order |
| `Traversal.FragmentsBindInOrder` | src/test/java/edu/byu/cs329/typechecker/TypeCheckerVisitor.java:121-125 | the fragments are bound to the declared type in source order |
| `Traversal.BlockReleasesItsNames` | src/test/java/edu/byu/cs329/typechecker/TypeCheckerVisitor.java:105-115 | after a block, the environment is the one before it minus every name declared anywhere inside it |
| `Traversal.StatementsScope` | src/test/java/edu/byu/cs329/typechecker/TypeCheckerVisitor.java:105-128 | the scoping invariant of a statement list: survivors of removing the innermost frame equal the earlier survivors minus the declared names |
| `Traversal.StatementScope` | src/test/java/edu/byu/cs329/typechecker/TypeCheckerVisitor.java:105-128 | the same invariant for one statement |
| `Traversal.BlockRestoresLookups` | src/test/java/edu/byu/cs329/typechecker/TypeCheckerVisitor.java:112-115 | after a block, a name declared in it is unbound, and every other name resolves as before the block |
| `Traversal.BlockRestoresEnvironment` | src/test/java/edu/byu/cs329/typechecker/TypeCheckerVisitor.java:112-115 | a block that declares only names that were unbound on entry leaves the environment exactly as it found it |
| `Traversal.WalkTypesNamesContainers` | src/test/java/edu/byu/cs329/typechecker/TypeCheckerVisitor.java:47-52 | over the corrected handlers (the intended `removeLocals` and a fragment handler without the push): each class adds, in order, a container named after its judgment |
| `Traversal.BuildProofsNamesContainers` | src/test/java/edu/byu/cs329/typechecker/TypeCheckerVisitor.java:138-140 | over the corrected handlers (the intended `removeLocals` and a fragment handler without the push): the root list's i-th entry is a container named after the i-th class |
| `Traversal.TypeContainerHoldsMembers` | src/test/java/edu/byu/cs329/typechecker/TypeCheckerVisitor.java:39-60 | a class's container holds exactly what its members produced, or only the passing leaf |
| `Traversal.MethodContainerHoldsBody` | src/test/java/edu/byu/cs329/typechecker/TypeCheckerVisitor.java:78-96 | a method's container holds exactly what its body produced, or only the passing leaf |
| `Traversal.BlockOfEmptyStatements` | src/test/java/edu/byu/cs329/typechecker/TypeCheckerVisitor.java:85-109 | a block of empty statements adds one trivially passing container per statement |
| `Traversal.EmptyStatementsAppend` | src/test/java/edu/byu/cs329/typechecker/TypeCheckerVisitor.java:85-103 | the same for a statement list inside a block |
| `Traversal.OneMethodClass` | src/test/java/edu/byu/cs329/typechecker/TypeCheckerVisitor.java:39-96 | a class with one method has a container that holds just the method's container |
| `Traversal.SingleDeclaration` | src/test/java/edu/byu/cs329/typechecker/TypeCheckerVisitor.java:118-128 | a one-name declaration of an accepted type binds the name and adds no obligation |
| `Traversal.BuildProofsOfOneType` | src/test/java/edu/byu/cs329/typechecker/TypeCheckerVisitor.java:138-140 | over the corrected handlers (the intended `removeLocals` and a fragment handler without the push): for one class, the root list is the list its walk leaves on top |
| `Scenarios.EmptyClassProof` | src/test/java/edu/byu/cs329/typechecker/TypeCheckerVisitor.java:39-72 | an empty class gives one container holding the passing leaf |
| `Scenarios.MethodWithEmptyStatementProof` | src/test/java/edu/byu/cs329/typechecker/TypeCheckerVisitor.java:78-103 | class, then method, then empty statement give three nested containers and one leaf |
| `Scenarios.UnknownLocalTypeThrows` | src/main/java/edu/byu/cs329/typechecker/SymbolTable.java:141-146 | a local of an unaccepted type ends the whole walk with `IllegalArgumentException` |
| `Scenarios.InnerBlockUnbindsShadowedName` | src/main/java/edu/byu/cs329/typechecker/SymbolTable.java:159-168 | `x` resolves to its outer type before an inner block redeclares it, and is unbound after that block |
| `Scenarios.RedeclaredInBlock` | src/test/java/edu/byu/cs329/typechecker/TypeCheckerVisitor.java:112-115 | a block that redeclares `x` leaves `x` unbound |
| `Scenarios.FragmentPushLeavesRootEmpty` | src/test/java/edu/byu/cs329/typechecker/TypeCheckerVisitor.java:118-120 | as written, a class whose only member is a field declaration ends with the root list empty: the fragment's pushed list is closed as the class's container one level too deep, and the class's own list stays on the stack. No block and no `removeLocals` is involved. |
| `Scenarios.FragmentWithoutPushReportsClass` | src/test/java/edu/byu/cs329/typechecker/TypeCheckerVisitor.java:118-136 | with the corrected handler, the same class's container, holding only the passing leaf, is the root list's one entry |
| `Scenarios.MethodWithLocalProof` | src/test/java/edu/byu/cs329/typechecker/TypeCheckerVisitor.java:78-136 | with the corrected handlers, a method declaring one local gives a class container holding a method container holding only the passing leaf |

## Left out

- Parsing (`Parser.java`), JDT's AST classes and `ASTVisitor`'s dispatch are not part of this model. The walk in `Traversal` stands in for the dispatch. Only the node kinds the visitor handles are modelled: class, field and method declarations, blocks, empty statements, and variable declarations.
- A node's `toString()` text is given as a string field of the node. How JDT prints a node is not modelled.
- `assignmentObligations` and fragment initialisers are not modelled: the method is not defined in the file.
- The inner `DynamicTest`'s executable is not modelled. A leaf records only its name and whether it passes.
- String comparison: the source compares names and type tokens with `==`, which is reference identity in Java. The model compares values. The names and types the visitor passes come from `getIdentifier()` and `getType().toString()` and are fresh strings, not the interned constants. So, as written, `isValidType` is false for every declaration, `addLocal` always throws, and every field, method, parameter and local lookup by name misses; the class-registry lookups go through `HashMap`, which compares with `equals`, and do find them. The model does not capture this.
- Aliasing: in the source, `addMethod` stores the caller's parameter list itself, and `peekProof` returns the stack's own list. The model stores values. `CreateProofAndAddToObligations` writes the extended list back explicitly.
- `ISymbolTable` as a separate interface type: the class `SymbolTable` carries its operations directly.
- `getFields`, `getName`, `getMethods`, `getNestedClass`: these are plain field reads in the model.
- `ClassObject` is reached through the `classes` map. Lookups require the class to be registered (the source throws `NullPointerException` otherwise).
- A fragment whose parent is a declaration statement outside any block is ruled out by a `requires`: the frame stack would be empty, and `peekFrame` would fail.
- `NumberLiterals.ParseDecimal`: accepts only ASCII digits. Java's `parseInt` also accepts other Unicode decimal digits.
- `Environments.RemoveNames`: its own contract states only that the result is no longer. Membership, order and lookups are stated by the lemmas after it.

## Findings

| source | as written | input that shows it | evidently intended | confidence | as-written member | corrected member |
|---|---|---|---|---|---|---|
| src/main/java/edu/byu/cs329/typechecker/SymbolTable.java:159-168 | `locals.remove(i)` names the parameter, which shadows the field. The argument list is edited while it is being iterated, and `this.locals` is never changed. | locals `[x:int]`, names `[x, b]`: completes, and `x` is still bound. Names `[x]`: throws `ConcurrentModificationException`. Locals `[a:int, x:int]`, names `[x]` (any nested block declaring one local): throws `IndexOutOfBoundsException`. | remove every binding of each listed name from `this.locals` | high (not executed) | `SymbolTables.RemoveLocalsAsWrittenKeepsBinding` | `SymbolTables.SymbolTable.RemoveLocals` |
| src/test/java/edu/byu/cs329/typechecker/TypeCheckerVisitor.java:118-120 | `visit(VariableDeclarationFragment)` pushes a proof list that no handler pops | a class whose only member is the field declaration `int f;`: the root list ends empty, and the class container sits one level too deep, wrapping the fragment's list | the fragment opens no obligation of its own, so the class container reaches the root list | high (not executed) | `Scenarios.FragmentPushLeavesRootEmpty` | `Scenarios.FragmentWithoutPushReportsClass` |
