# Mediator language server: type descriptions, subtyping, operator guards and scope hoisting

This project is a Dafny model of the core of the Mediator language server, a Langium server for the
Mediator modelling language. It covers two pieces.

The first is the small type theory:
- the two drafts of the type-description union;
- the structural subtype relation `isSubtypeOf`;
- the two drafts of the operator-legality guard.

The second is scope computation. Two drafts of the pass walk every AST node and append
`(container, name, node)` descriptions to a multimap. The rules that hoist names to outer scopes are
part of that pass.

Modules, one per source file:

| module | file | models |
|---|---|---|
| `Descriptions` | `descriptions.dfy` | `type-system/descriptions.ts`: the 15-tag union, its tag predicates, the bare-tag `typeToString` and the recursive `isNumber` |
| `Subtype` | `subtype.dfy` | `type-system/subtype.ts`: `isSubtypeOf` and `arrayContainedIn`, over `Descriptions` |
| `Description` | `description.dfy` | `type-system/description.ts`: the 16-tag union (`func`, `interface`, `loop-var`), the three tag-class predicates and the recursive renderer |
| `Operator` | `operator.dfy` | `type-system/operator.ts`: `isLegalOperation`, `isUnionSubsetOf`, `isSubsetOf`, over `Description` |
| `Operators` | `operators.dfy` | `type-system/operators.ts`: `isLegalOperation`, over `Descriptions` |
| `Ast` | `ast.dfy` | the AST as an arena of nodes, the ancestor chain, and the scope multimap as a class whose only operation appends |
| `EnumScopes` | `enum_scopes.dfy` | `processEnumTypeDef`, which both scope drafts define in the same way |
| `MediatorScope` | `mediator_scope.dfy` | `mediator-scope.ts`: `computeLocalScopes` and `processNode`, with the name and enum-member hoisting |
| `MediatorScopeProvider` | `mediator_scope_provider.dfy` | `mediator-scope-provider.ts`: `processNode`, which hoists the enum members of top-level typedefs |
| `ScopeDrafts` | `scope_drafts.dfy` | where the two scope drafts agree and where they differ |

Shared helpers (`Option`) are in `wrappers.dfy`.

## How the model is built

- **Types.** Type descriptions are Dafny datatypes, one constructor per tag. `createX` is the
  constructor and `isX` compares the source's tag string. The tag-string form keeps the source's
  tag names exactly: `function` in one draft and `func` in the other.
- **Structs.** A `WellFormed` predicate asks that every struct have as many field types as field
  names. `createStructType` does not check this, and `isSubtypeOf` and `typeToString` index the field
  types by a field position.
- **Syntax nodes.** A literal, an error's source or an enum member's node is a `NodeRef`, which is
  a plain `nat` identity.
- **List capacity.** In `Descriptions`, a list capacity is `Option<Capacity>`, where `Capacity` is
  `IntLit(v)` or `NonLiteral`; this mirrors the `isIntLiteral` test of `isSubtypeOf`. In
  `Description` the renderer only asks whether a capacity is present, so there it is an
  `Option<NodeRef>`.
- **Object text.** An AST node or type object inside a template string prints as JavaScript's
  object text. That is the constant `ObjectText`.
- **The AST.** It is an arena `Tree` of nodes. Each node has a kind, an optional name, an optional
  parent and a list of children.
  - Node 0 is the `Program` and has no parent.
  - Every other node's parent has a smaller id.
  - Every child has a larger id than its container, and each node lists its children in
    increasing id order.
  - Ids follow a pre-order walk: node `n` is a child of node `n - 1` or of one of that node's
    containers (`Tree.PreOrder`).

  This makes the `$container` walk terminate and makes id order the document order of
  `streamAllContents`. `Ast.SubtreeContiguous` shows the consequence: the ids of a subtree form one
  block, so the walk finishes a node's descendants before it moves on. `Ast.BreadthFirstRejected`
  shows that a breadth-first numbering is not a valid tree.
- **The scope multimap.** It is the class `Ast.Scopes`, holding a `seq<Entry>` that `Add` appends
  to.
- **The passes.** Each draft's `processNode` is a method with exactly the source's branches. Its
  enum-member walk is a `while` loop. Each method is proved against a function (`NodeEntries`) that
  gives the entries it appends. `computeLocalScopes` is a loop over the nodes, proved to produce
  `LocalScopes(t)`, which is the concatenation of every node's entries in order. `processEnumTypeDef`
  is a recursive method with two `for` loops, proved against `EnumTypeEntries`.
- **Names.** The name provider returns a node's `name`. JavaScript truthiness makes an empty name
  count as no name (`HasName`).

Notes on what the code of `isSubtypeOf` does, which the model follows:
- An `int` target admits `int` and `bool`, not `char` (`subtype.ts:10-11`).
- Function parameter types are compared covariantly (`subtype.ts:70`).
- A union `from` against a scalar target is never a subtype: the scalar branches compare only the
  tag of `from`.
- The automaton rule ignores the ports altogether. The comment at `subtype.ts:72-77` says that
  the ports should be compared and that this is not implemented.

## Model

| member | source | states |
|---|---|---|
| Descriptions.TagPredicatesMatchConstructors | src/language-server/type-system/descriptions.ts:30-271 | each `createX` value satisfies its own `isX` and none of the other fourteen tag predicates |
| Descriptions.StructConstructorChecksNoLengths | src/language-server/type-system/descriptions.ts:141-147 | `createStructType` keeps both arrays as given, with no length check, so a struct with a field and no field type can be built (and is not well formed) |
| Descriptions.TypeToString | src/language-server/type-system/descriptions.ts:273-275 | the result is always one of the fifteen tag strings; it is `"function"` exactly for functions and `"automaton"` exactly for automata |
| Descriptions.TypeToStringByVariant | src/language-server/type-system/descriptions.ts:273-275 | each of the fifteen variants renders as its own tag, written out: `type`, `null`, `int`, `real`, `char`, `bool`, `enum`, `struct`, `list`, `tuple`, `union`, `port`, `function`, `automaton`, `error` |
| Descriptions.IsNumber | src/language-server/type-system/descriptions.ts:277-283 | decides whether a type is numeric; its rule is stated by IsNumberByVariant and, over flattened unions, by IsNumberIffNumericLeaves |
| Descriptions.IsNumberByVariant | src/language-server/type-system/descriptions.ts:277-283 | int, real and bool are numbers; a union is a number iff every member is one, so the empty union is a number; every other tag is not |
| Descriptions.LeavesShape | src/language-server/type-system/descriptions.ts:280-281 | flattening nested unions leaves no union, and the leaves of a well-formed type are well formed |
| Descriptions.IsNumberIffNumericLeaves | src/language-server/type-system/descriptions.ts:277-283 | `isNumber(t)` holds iff every leaf of `t`, with nested unions flattened, is int, real or bool |
| Descriptions.LeavesFromNumeric | src/language-server/type-system/descriptions.ts:280-281 | the union members from position i on are all numbers iff all their flattened leaves are numeric scalars |
| Subtype.ArrayContainedIn | src/language-server/type-system/subtype.ts:86-88 | true iff every element of the first array occurs in the second |
| Subtype.IndexOf | src/language-server/type-system/subtype.ts:24 | -1 iff the name is absent; otherwise the position of its first occurrence |
| Subtype.FieldType | src/language-server/type-system/subtype.ts:24 | a field type is found iff the name is a field, and it is the type at the name's first occurrence among the fields (the `indexOf` position) |
| Subtype.IsSubtypeOf | src/language-server/type-system/subtype.ts:4-84 | decides whether `from` is a subtype of `to`, by the tag of `to`; each branch is stated by one of the target lemmas below, and Reflexive, StructWidth and NotAPartialOrder state its properties |
| Subtype.ScalarTargets | src/language-server/type-system/subtype.ts:6-14 | null admits only null, char only char, int only int and bool, and bool and real exactly the four scalars int, real, char and bool |
| Subtype.EnumTarget | src/language-server/type-system/subtype.ts:15-18 | below an enum iff `from` is an enum with no more members, every one of them among the target's members |
| Subtype.StructTarget | src/language-server/type-system/subtype.ts:19-25 | below a struct iff `from` is a struct with at least as many fields, each target field names a field of `from`, and the type at that name's first occurrence is below the target field's type |
| Subtype.ListTarget | src/language-server/type-system/subtype.ts:26-46 | a non-list is never below a list; an unbounded target needs an unbounded `from`; two literal capacities need `from`'s to be at least the target's; otherwise only the base types are compared |
| Subtype.TupleTarget | src/language-server/type-system/subtype.ts:47-50 | below a tuple iff `from` is a tuple of the same length whose elements are each below the element at the same position |
| Subtype.AbstractTarget | src/language-server/type-system/subtype.ts:59-61 | only the abstract type is below the abstract type |
| Subtype.UnionTarget | src/language-server/type-system/subtype.ts:51-58 | a union `from` needs every member below the target, so the empty union is below every union; a non-union needs some target member above it |
| Subtype.UnionTargetByLeaves | src/language-server/type-system/subtype.ts:51-58 | union elimination: `from` is below a union iff every flattened leaf of `from` is below some member of the target |
| Subtype.UnionTargetByLeafSubtypes | src/language-server/type-system/subtype.ts:51-58 | the flattened leaves of a well-formed type are well formed and never unions, and the type is below a union iff each of its leaves is |
| Subtype.UnionLeavesFrom | src/language-server/type-system/subtype.ts:53-55 | the members of a union from position i on are all below the target iff all their flattened leaves are each below some target member |
| Subtype.PortFunctionAutomatonTargets | src/language-server/type-system/subtype.ts:62-80 | ports need the same direction and a value type below; functions need equal arity, a return type below and each parameter below; automata with equal port counts are always related |
| Subtype.FunctionParametersCovariant | src/language-server/type-system/subtype.ts:68-70 | parameters are compared covariantly: `func(int)` is below `func(real)` and not the other way round |
| Subtype.ErrorTarget | src/language-server/type-system/subtype.ts:82-83 | an error target, reached only through the tag-equality fallback, admits exactly the error types |
| Subtype.BelowMemberBelowUnion | src/language-server/type-system/subtype.ts:51-58 | anything below a member of a union is below the union, also when it is itself a union |
| Subtype.Reflexive | src/language-server/type-system/subtype.ts:4-84 | every well-formed type whose structs have distinct field names is a subtype of itself |
| Subtype.RepeatedFieldName | src/language-server/type-system/subtype.ts:19-25 | a struct that names a field twice, `struct {x: int, x: char}`, is not below itself, because `indexOf` finds only the first `x` |
| Subtype.StructWidth | src/language-server/type-system/subtype.ts:19-25 | appending fields to a struct whose field names are distinct gives a subtype of it (width subtyping); with a repeated name, `indexOf` finds only the first occurrence, so `struct {x: int, x: char}` is not below itself |
| Subtype.NotAPartialOrder | src/language-server/type-system/subtype.ts:8-13 | the scalar rules are neither transitive (char below bool below int, char not below int) nor antisymmetric (int and bool each below the other) |
| Subtype.EnumInstances | src/language-server/type-system/subtype.ts:15-18 | `enum {A}` is below `enum {A, B}` and not the other way round |
| Subtype.StructInstances | src/language-server/type-system/subtype.ts:19-25 | `{x, y}` is below `{x}` and not the other way round |
| Subtype.ListInstances | src/language-server/type-system/subtype.ts:39-41 | `int[5]` is below `int[3]` and `int[2]` is not |
| Subtype.UnionInstances | src/language-server/type-system/subtype.ts:6-58 | `int` is below the union of int and char; the union of int and bool is not below `int`, because a scalar target looks only at the tag of `from` |
| Description.TagPredicatesMatchConstructors | src/language-server/type-system/description.ts:27-285 | each `createX` value satisfies its own `isX` and none of the other fifteen tag predicates |
| Description.IsPrimitiveType | src/language-server/type-system/description.ts:287-290 | decides whether the tag is one of the five primitive tags; TagClasses states the class exactly |
| Description.IsParameterType | src/language-server/type-system/description.ts:292-295 | decides whether the tag is `type`, `func` or `interface`; TagClasses states the class exactly |
| Description.IsExpressionType | src/language-server/type-system/description.ts:297-300 | decides whether the tag is one of the eleven expression tags; TagClasses states the class exactly |
| Description.TypeToString | src/language-server/type-system/description.ts:302-337 | renders a type as text; the rendering lemmas below state each of the sixteen variants (primitives, struct, list, tuple, union, func, port and interface in their own lemmas, enum, abstract, loop-var and error in EnumRendering, AbstractRendering, LoopVariableRendering and ErrorRendering), with the general list forms in the Snoc lemmas |
| Description.TagClasses | src/language-server/type-system/description.ts:287-300 | primitive means exactly int, real, char, bool and null; parameter means exactly type, func and interface; expression means exactly the eleven value tags; hence expression and parameter are disjoint, every primitive is an expression type, and only loop-var and error are neither |
| Description.PrimitiveRendering | src/language-server/type-system/description.ts:303-305 | a primitive renders as its tag, with the literal's object text appended only when there is a literal; null never gets a suffix |
| Description.EnumRendering | src/language-server/type-system/description.ts:306-308 | an enum renders as `enum {` + its member names, in order, joined by `", "` + `}` |
| Description.AbstractRendering | src/language-server/type-system/description.ts:321-323 | an abstract type renders as `type`, plus ` ([object Object])` only when it has a concrete type |
| Description.LoopVariableRendering | src/language-server/type-system/description.ts:332-333 | a loop variable renders as `loop-var ` followed by its type |
| Description.ErrorRendering | src/language-server/type-system/description.ts:334-336 | an error renders as `error: '<message>'`, plus ` from [object Object]` only when it has a source |
| Description.RenderingStartsWithTag | src/language-server/type-system/description.ts:302-337 | every type except list, tuple, union and port renders starting with its own tag |
| Description.JoinOfEmpties | src/language-server/type-system/description.ts:310-312 | joining n empty strings gives n-1 separators |
| Description.StructRendering | src/language-server/type-system/description.ts:309-313 | as written, a struct renders no field text: `struct {` followed by max(n-1, 0) copies of `", "` and `}`, so `{x: int}` renders as `struct {}` |
| Description.StructRenderingFixed | src/language-server/type-system/description.ts:310-312 | with the callback's `return` restored, no field renders as `struct {}` and one field as `struct {name: T}` |
| Description.StructFieldDropped | src/language-server/type-system/description.ts:310-312 | the written renderer prints `{x: int}` as `struct {}`, while the corrected one prints `struct {x: int}` |
| Description.StructRenderingFixedSnoc | src/language-server/type-system/description.ts:310-312 | with the `return` restored, appending a field to a non-empty struct inserts `", "` and `name: T` before the closing brace, so every field shows as `name: T`, joined by `", "` |
| Description.ListRendering | src/language-server/type-system/description.ts:314-315 | a list renders as its base followed by `[n]` when bounded and `[]` otherwise; the capacity itself never shows |
| Description.TupleRendering | src/language-server/type-system/description.ts:316-318 | the empty tuple renders as `()`, a one-element tuple as its element in parentheses, and a pair as both elements joined by `", "` in parentheses |
| Description.TupleRenderingSnoc | src/language-server/type-system/description.ts:316-318 | for every non-empty tuple: the rendering starts with `(` and ends with `)`, and appending an element inserts `", "` and that element's rendering before the closing `)`; with TupleRendering this gives the join by `", "` inside parentheses for every length |
| Description.JoinSnoc | src/language-server/type-system/description.ts:317 | `Array.prototype.join` of a non-empty list with one more element is the old join, the separator and the new element |
| Description.UnionRendering | src/language-server/type-system/description.ts:319-320 | a union renders as its members joined by a spaced bar with no brackets, so an empty union renders as the empty string and a one-member union as its member |
| Description.UnionRenderingSnoc | src/language-server/type-system/description.ts:319-320 | for every non-empty union, appending a member appends a spaced bar and that member's rendering, so a union of any length renders as its members joined by a spaced bar |
| Description.FunctionRendering | src/language-server/type-system/description.ts:324-326 | a function with no parameter renders as `func (): ` and its return type, and one with a parameter as `func (`, the parameter, `): ` and the return type |
| Description.FunctionRenderingSnoc | src/language-server/type-system/description.ts:324-326 | for every non-empty parameter list: the rendering ends with `): ` and the return type, and appending a parameter inserts `", "` and that parameter's rendering just before that ending |
| Description.PortRendering | src/language-server/type-system/description.ts:330-331 | a port renders as its direction, a space and its value type |
| Description.InterfaceRendering | src/language-server/type-system/description.ts:327-329 | an interface with no port renders as `interface ()`, and one with a single port as `dir T` inside `interface (...)` |
| Description.InterfaceRenderingSnoc | src/language-server/type-system/description.ts:327-329 | for every non-empty port list: the rendering ends with `)`, and appending a port inserts `", "`, its direction, a space and its value type before that `)` |
| Description.LeavesAreNotUnions | src/language-server/type-system/operator.ts:32-35 | flattening nested unions, as the corrected `isUnionSubsetOf` does, leaves no union behind |
| Operator.IsLegalOperation | src/language-server/type-system/operator.ts:3-28 | decides whether an operator applies to its operand types; the operator lemmas below state each group and the final `return false` |
| Operator.IsUnionSubsetOf | src/language-server/type-system/operator.ts:30-36 | decides, as written, whether every union member is a subset of the list; NonEmptyUnionNeverSubset states what the missing `return` makes of it |
| Operator.IsSubsetOf | src/language-server/type-system/operator.ts:38-40 | decides whether a type is in the tag list, through IsUnionSubsetOf for unions; SubsetOfByVariant states the rule |
| Operator.SubsetOfByVariant | src/language-server/type-system/operator.ts:30-40 | as written, `isSubsetOf` accepts a type iff its tag is listed, or it is the memberless union and the list is non-empty |
| Operator.NonEmptyUnionNeverSubset | src/language-server/type-system/operator.ts:32-35 | as written, no union with members is a subset of anything, not even `int` of `["int"]` |
| Operator.AdditiveOperators | src/language-server/type-system/operator.ts:4-9 | `+` and `-` are legal iff the left operand, and the right one when present, has a tag in {int, real, bool}; char is rejected |
| Operator.MultiplicativeOperators | src/language-server/type-system/operator.ts:10-13 | `**`, `*`, `/` and `%` need a right operand, and both operands must have a tag in {int, real, bool} |
| Operator.EqualityLogicalOperators | src/language-server/type-system/operator.ts:14-17 | `==`, `!=`, `&&` and logical or need a right operand, and both must have a tag in {int, real, bool, char, null, enum, list, tuple}; struct, func, port, interface, type, loop-var and error are rejected |
| Operator.RelationalOperators | src/language-server/type-system/operator.ts:18-22 | `<`, `>` and `<=` need a right operand, and both operands numeric or both char |
| Operator.NegationOperator | src/language-server/type-system/operator.ts:23-25 | `!` is unary only and accepts the same operand tags as equality |
| Operator.GreaterEqualAlwaysIllegal | src/language-server/type-system/operator.ts:18 | as written, `>=` is illegal for every pair of operands, even `int >= int` |
| Operator.UnlistedOperatorsIllegal | src/language-server/type-system/operator.ts:27 | every operator outside the listed ones is illegal, and the third operand never changes the answer |
| Operator.UnionSubsetFixedByLeaves | src/language-server/type-system/operator.ts:30-36 | with the missing `return` restored, a union is a subset of a non-empty list iff every flattened leaf's tag is listed |
| Operator.UnionSubsetFixedByLeafSubsets | src/language-server/type-system/operator.ts:30-40 | with the `return` restored, the flattened leaves of a union are never unions, and the union passes iff each leaf passes the plain `isSubsetOf` test |
| Operator.FixedLeavesFrom | src/language-server/type-system/operator.ts:32-35 | with the `return` restored, the union members from position i on are all listed iff all their flattened leaves are |
| Operator.SubsetOfNonUnion | src/language-server/type-system/operator.ts:38-40 | on a non-union, both the written and the corrected `isSubsetOf` are plain tag membership |
| Operator.FixedRelationalOperators | src/language-server/type-system/operator.ts:18-22 | with `>=` in the list, all four relational operators accept two numeric or two char operands, `int >= int` included |
| Operator.FixedAgreesOffGreaterEqual | src/language-server/type-system/operator.ts:3-28 | on non-union operands the corrected guard differs from the written one only at `>=` |
| Operator.FixedAcceptsNumericUnion | src/language-server/type-system/operator.ts:4-9 | the corrected guard accepts `+` on the union of int and real and the written one rejects it |
| Operators.IsLegalOperation | src/language-server/type-system/operators.ts:3-21 | decides whether an operator applies to its operand types; the operator lemmas below state each group and the final `return false` |
| Operators.ArithmeticOperators | src/language-server/type-system/operators.ts:4-8 | the six arithmetic operators are legal iff `isNumber` holds of the left operand and of the right one when present |
| Operators.LogicalOperators | src/language-server/type-system/operators.ts:9-14 | `!`, `==`, `!=`, `&&` and logical or are legal iff each present operand is a number, a char or null; the unary form is allowed for all five |
| Operators.RelationalOperators | src/language-server/type-system/operators.ts:15-16 | the four relational operators need a right operand and accept two numbers or two chars; without a right operand they are illegal |
| Operators.ConditionalOperator | src/language-server/type-system/operators.ts:17-18 | `?` needs a numeric condition and branches with equal tags; two absent branches compare equal, so `?` with no branches is legal iff the condition is a number |
| Operators.UnlistedOperatorsIllegal | src/language-server/type-system/operators.ts:20 | every operator outside the sixteen recognised ones is illegal |
| Operators.UnionOperands | src/language-server/type-system/operators.ts:4-8 | a nested numeric union is accepted by `+`; a union with a char member is rejected by `*` |
| Ast.Ancestors | src/language-server/mediator-scope.ts:36-38 | the `$container` chain of a node: empty exactly at the root, starting at the parent, ending at the `Program`, each step a parent link, every id smaller than the node's |
| Ast.EnclosesTrans | src/language-server/mediator-scope.ts:36-38 | being a container, directly or through further containers, is transitive |
| Ast.SubtreeContiguous | src/language-server/mediator-scope.ts:14 | in pre-order ids, every node between a node and one of its descendants is a descendant of that node too, so the walk finishes a subtree before it moves on |
| Ast.BreadthFirstRejected | src/language-server/mediator-scope.ts:14 | a tree numbered breadth-first, whose ids are not the walk order, is not a valid tree |
| Ast.Scopes.Add | src/language-server/mediator-scope.ts:26 | adding a description appends exactly one entry and keeps all earlier ones |
| Ast.FlattenComplete | src/language-server/mediator-scope.ts:14-17 | every entry contributed by some visit is in the concatenation of all visits |
| Ast.FlattenOrigin | src/language-server/mediator-scope.ts:14-17 | every entry of the concatenation comes from some visit |
| Ast.FlattenLength | src/language-server/mediator-scope.ts:14-17 | if each visit contributes at most b entries, the concatenation has at most b times the number of visits |
| EnumScopes.MemberEntriesExactly | src/language-server/mediator-scope.ts:51-54 | the member loop registers exactly the named members of the list under the given container, at most one entry each |
| EnumScopes.EnumTypeEntriesExactly | src/language-server/mediator-scope.ts:49-60 | `processEnumTypeDef` registers an entry iff it names an enum member reached through enums nested in tuples and unions at any depth; enums under structs, lists or other kinds are not reached |
| EnumScopes.TypesEntriesExactly | src/language-server/mediator-scope.ts:55-59 | the loop over the first i element types registers exactly the enum members within those elements |
| EnumScopes.AddMembers | src/language-server/mediator-scope.ts:51-54 | the member loop appends exactly `MemberEntries` to the scopes |
| EnumScopes.ProcessEnumTypeDef | src/language-server/mediator-scope.ts:49-60 | the recursive pass appends exactly `EnumTypeEntries` (the provider draft's copy, mediator-scope-provider.ts:24-37, is the same) |
| EnumScopes.AddTypes | src/language-server/mediator-scope.ts:55-59 | the loop over a tuple's or union's element types appends exactly `TypesEntries` |
| MediatorScope.IsScopeRoot | src/language-server/mediator-scope.ts:33-35 | decides `isCorrectScope`: a type definition, function, automaton, system, loop statement or function loop statement |
| MediatorScope.ScopeRootAbove | src/language-server/mediator-scope.ts:33-38 | the node the upward walk stops at is a scope root (`isCorrectScope`) and a proper ancestor of the starting node |
| MediatorScope.NodeEntriesShape | src/language-server/mediator-scope.ts:22-44 | a node adds at most two entries, and adds any at all iff it has a container and a name; the first is always under its direct container, all are for that node and name, and only component names, variable names and enum members add a second |
| MediatorScope.ProcessNode | src/language-server/mediator-scope.ts:21-47 | `processNode` appends exactly the node's entries and removes nothing |
| MediatorScope.ComputeLocalScopes | src/language-server/mediator-scope.ts:10-19 | the pass returns a fresh multimap holding exactly every node's entries, in document order |
| MediatorScope.ScopeRootAboveIsNearest | src/language-server/mediator-scope.ts:33-38 | the walk finds nothing iff no ancestor is a scope root, and otherwise it finds the nearest scope-root ancestor |
| MediatorScope.EnumHoistTargetIsNearest | src/language-server/mediator-scope.ts:31-43 | an enum member is hoisted iff some ancestor of its container is a scope root; the target is the nearest such root, or that root's container when the root is a TypeDef |
| MediatorScope.EnumMemberHoisting | src/language-server/mediator-scope.ts:31-43 | a named enum member with a container adds two entries iff some ancestor of its container is a scope root, the second under the hoisting target; otherwise it adds only its direct entry |
| MediatorScope.NameHoisting | src/language-server/mediator-scope.ts:27-30 | a named component or variable name is registered under its container and under its container's container |
| MediatorScope.EntriesInAncestors | src/language-server/mediator-scope.ts:22-44 | every entry a node adds is under one of its ancestors |
| MediatorScope.VisitedEntry | src/language-server/mediator-scope.ts:14-17 | every entry any node adds ends up in the computed scopes |
| MediatorScope.NamedNodesVisible | src/language-server/mediator-scope.ts:22-26 | every named non-root node is in the computed scopes under its direct container |
| MediatorScope.EnumMemberVisibleAtTarget | src/language-server/mediator-scope.ts:39-43 | a named enum member with a scope-root ancestor is in the computed scopes under its hoisting target |
| MediatorScope.ScopesAreAncestors | src/language-server/mediator-scope.ts:10-47 | every computed entry is for a non-root node and sits under one of that node's ancestors |
| MediatorScope.LocalScopesSize | src/language-server/mediator-scope.ts:10-47 | the computed scopes hold at most two entries per non-root node |
| MediatorScopeProvider.ProcessNode | src/language-server/mediator-scope-provider.ts:10-22 | `processNode` appends exactly the node's entries and removes nothing |
| MediatorScopeProvider.ComputeLocalScopes | src/language-server/mediator-scope-provider.ts:5-8 | the inherited pass returns a fresh multimap holding exactly every node's entries, in document order |
| MediatorScopeProvider.NodeEntriesExactly | src/language-server/mediator-scope-provider.ts:10-22 | a node adds its direct entry when it has a container and a name; a TypeDef directly under the Program also adds, under the Program, exactly the named enum members within its type; nothing else is added |
| MediatorScopeProvider.VisitedEntry | src/language-server/mediator-scope-provider.ts:10-22 | every entry any node adds ends up in the computed scopes |
| MediatorScopeProvider.NamedNodesVisible | src/language-server/mediator-scope-provider.ts:11-16 | every named non-root node is in the computed scopes under its container |
| MediatorScopeProvider.TopLevelEnumMembersVisible | src/language-server/mediator-scope-provider.ts:18-36 | every named enum member within a top-level typedef's type, through tuples and unions at any depth, is in the computed scopes under the Program |
| MediatorScopeProvider.TopLevelEnumMemberRegistered | src/language-server/mediator-scope-provider.ts:19-31 | the typedef's own visit registers each such member under the Program |
| ScopeDrafts.SameScopeRoot | src/language-server/mediator-scope.ts:36-38 | from an enum member nested in a type through tuples and unions, the upward walk reaches the same scope root as from the type itself |
| ScopeDrafts.TopLevelEnumMembersAgree | src/language-server/mediator-scope-provider.ts:19-20 | for top-level typedefs the two drafts agree: each draft puts every named enum member within the type under the Program |
| ScopeDrafts.TopLevelEnumMemberHoisted | src/language-server/mediator-scope.ts:39-42 | for such a member, the scope-root walk stops at the typedef and hoists to the typedef's container |
| ScopeDrafts.EnumInsideFunction | src/language-server/mediator-scope.ts:31-43 | the drafts differ for an enum declared inside a function: the hoisting draft also registers its member under the function, the provider draft registers it only under the enum type |

## Left out

- `type-system/infer.ts` is entirely commented out, so there is nothing to model.
- `mediator-module.ts` (dependency-injection wiring) and `mediator-generate.ts` (a parser call and
  console output) are not part of this model.
- `MediatorScopeProvider.getScope` (`mediator-scope.ts:63-71`) only delegates to Langium's default
  provider. It is not modelled.
- The asynchronous cancellation check in `computeLocalScopes` is left out. The loop is modelled
  synchronously, and a cancelled pass is not modelled.
- Langium's name provider, `createDescription` and `streamAllContents` are not part of this model.
  - A node's name is its `name` field.
  - A description is the triple `Entry(container, name, node)`.
  - The traversal visits every node except the root, in id order, which the arena makes pre-order.
- The `MultiMap` is a sequence of entries. A lookup by container is not modelled, because the core
  only adds.
- The generated AST is not part of this model.
  - `isIterableType` is taken to mean tuple or union, the same test the provider draft writes out.
  - A grammar rule places a component or variable name below a typing node, which is itself below
    something. `Tree.Valid` states this as "the parent of such a name is never the `Program`".
- `processEnumTypeDef` in `mediator-scope.ts` is never called by that file's `processNode`. It is
  modelled once, in `EnumScopes`, and shared with the provider draft, whose copy differs only in
  the declared type of `container`.
- The provider draft inherits Langium's `computeLocalScopes`. The model takes it to be the same
  loop as the one in `mediator-scope.ts`, without the cancellation check.
- Literal and source suffixes in the renderer print JavaScript's object text. The model uses one
  constant string for it and does not model other `toString` behaviour.
- Real literal values (floating point) are not modelled. Only integer capacity literals are ever
  compared.
- `createPortType`, `createFunctionType` and the other constructors store their arguments
  unchanged. In the model this is the meaning of a datatype constructor, so no separate lemma
  states it. Only the missing length check of `createStructType` is stated.
- Well-formedness (`WellFormed` in both description modules) asks for exactly as many field types
  as field names in every struct, at every depth, and every operation that takes a type requires
  it. This excludes two kinds of struct.
  - Fewer field types than names. `isSubtypeOf` looks up a field type by the field's position and
    gets `undefined`; the recursive call then throws a `TypeError` when it reads the tag. The
    struct callback of `typeToString` in `description.ts` still evaluates
    `typeToString(item.fieldTypes[index])` for every field before it discards the text, so it
    throws the same way. Some calls return before they reach the missing field type, for example
    with a `null` target or a tag mismatch. The model does not reproduce those partial results or
    the thrown error.
  - More field types than names. The source handles these without error: the extra field types
    are never read. The model does not cover them.

## Findings

| source | as written | input that shows it | evidently intended | confidence | as-written member | corrected member |
|---|---|---|---|---|---|---|
| src/language-server/type-system/operator.ts:18 | the relational list is `["<", ">", "<=", "<="]`, so `>=` is never legal | `isLegalOperation(">=", int, int)` is false | `[ "<", ">", "<=", ">=" ]`, so `int >= int` is legal like `int <= int` | not executed | Operator.GreaterEqualAlwaysIllegal | Operator.FixedRelationalOperators |
| src/language-server/type-system/operator.ts:32-35 | the `every` callback has a block body with no `return`, so it yields `undefined` and any union with members fails | `isUnionSubsetOf(union(int), ["int"])` is false | return the condition, so a union is a subset iff every flattened member's tag is listed | not executed | Operator.NonEmptyUnionNeverSubset | Operator.UnionSubsetFixedByLeaves |
| src/language-server/type-system/description.ts:310-312 | the struct `map` callback has a block body with no `return`, so every field maps to `undefined` and `join` prints nothing for it | `typeToString(struct {x: int})` is `struct {}` | return the text, so each field shows as `name: T` | not executed | Description.StructFieldDropped | Description.StructRenderingFixedSnoc |
