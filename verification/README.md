# Lona front end: a Dafny model

Lona is a compiler front end with a query tool beside it. This project models the parts of both whose
correctness is not evident from reading one function, and proves what they promise.

| file | what it models |
|---|---|
| `FixedWidth.dfy` | two's-complement integers of any width, against ideal integers |
| `InlineFold.dfy` | the constant folder for inline bindings, against an evaluator over ideal integers |
| `FoldLiterals.dfy` | the integer types of the folder against the limits of the literals |
| `InlineEval.dfy` | memoised evaluation of top-level inlines across modules, with cycle detection |
| `Generics.dfy` | substitution in generic signatures and inference of type arguments |
| `SignatureSpelling.dfy` | instantiated signature types, written down, against substitution in trees |
| `Instantiation.dfy` | which unit emits a generic instance, and the re-entrant analysis of instance bodies |
| `PromotedLookup.dfy` | breadth-first lookup of members promoted through embedded fields |
| `CallArgs.dfy` | placement of positional and named call arguments |
| `ArrayInit.dfy` | brace initialisers: shape inference and checking against an array type |
| `TypeSyntax.dfy`, `Text.dfy` | type expressions as trees; trimming and suffixes of text |
| `TypeSpelling.dfy` | the type printer, and splitting and stripping of printed types |
| `SpellingSubstitution.dfy` | textual substitution of type parameters, against substitution in trees |
| `ModuleGraph.dfy` | the module graph: dependents, closure, depth-first order |
| `Session.dfy` | invalidation and the state of the query session |
| `TypeExpansion.dfy` | expansion of a type into members through recursive structs |
| `ByteStrings.dfy`, `NumericLiterals.dfy` | byte-string escapes and numeric literals |
| `Wrappers.dfy`, `Sequences.dfy` | `Option`; sequences without repetitions |

Code that returns a fresh result by recursion is modelled as functions. Code that fills a map, a vector or a
set in place, or updates an object, is modelled as methods and classes with those fields, each proved
against a function or predicate of its inputs. Errors that the program throws are results here.

## Where the code does less than one would expect

Each of these is a lemma with a concrete input or a general one, beside a theorem that says exactly when the
code does meet the expectation.

- Folding a cast to `usize` keeps the 64-bit value of the host when pointers are narrower, which is right
  exactly when the folded operand fits (`InlineFold.NarrowUsizeCastFails`, `InlineFold.NarrowUsizeCastMeaning`).
- A parameter under `const` that is bound to a const type is inferred without its const
  (`Generics.ConstIsLost`, `Generics.InferenceUndoesSubstitution`).
- Inference does not look at the parts of a signature type that are not parameters: `Pair[T, i32]` accepts a
  `Pair[bool, f64]` (`Generics.LeavesAreNotCompared`, `Generics.InferenceIsSound`).
- A top-level inline that depends on nothing can be refused as cyclic, because evaluating it analyses its
  module body from the start (`InlineEval.ConstantRefusedAsCyclic`, `InlineEval.AcceptableExactly`).
- A type is inferred for `{a, b}` when a and b are arrays, and then that type refuses the initialiser
  (`ArrayInit.ArraysCannotBeListed`, `ArrayInit.InferredTypeFits`).
- The printed forms of `T[*]` and of array types split as if they were applied types, exactly when T prints no
  square bracket (`TypeSpelling.IndexablePointerReadsAsApplied`, `TypeSpelling.ArrayReadsAsApplied`).
- An applied type is not taken apart when its base is applied itself, as in `Foo[A][B]`, and only then
  (`TypeSpelling.TwiceAppliedIsRefused`, `TypeSpelling.SplitRecoversAppliedType`).
- Textual substitution differs from substitution in the tree for array types with dimensions and for `ref`
  parameters (`SpellingSubstitution.DimensionsAreMarks`, `SpellingSubstitution.SubstTextIsSubstTree`).
- Reloading a module also rereads what it depends on. When one of those files has changed, modules above it
  keep interfaces made from the old text exactly when they do not reach the reloaded module and have not
  changed themselves (`Sessions.MiddleModuleStaysStale`, `Sessions.StaleAfterReload`).
- Reloading the whole project leaves the same gap for modules that are not entries and reach none
  (`Sessions.StaleAfterRounds`, `Sessions.MiddleModuleStaysStale`).
- Opening a module reports success as soon as any entry loads, also when the module itself does not. The entries
  offered are those whose file can be read and lies under exactly one root, up to the first that runs into the
  limit of errors, and none when the roots are not usable; the module asked for is the active one exactly when an
  offered entry reaches it, so whenever it is offered itself (`Sessions.OpeningFallsBack`,
  `Sessions.OfferedExactly`, `Sessions.ChoiceIsExact` and the contract of `Sessions.Session.GotoModule`).
- An unsuffixed hexadecimal literal whose last digits spell `_f32` or `_f64` is a floating-point literal
  (`NumericLiterals.HexReadAsFloat`, `NumericLiterals.UnsuffixedLiteralDenotes`).

## Model

| member | source | states |
|---|---|---|
| `FixedWidth.SDivCorrect` | `src/lona/analyze/function.cc:975-992` | signed machine division represents the quotient truncated toward zero |
| `FixedWidth.SRemCorrect` | `src/lona/analyze/function.cc:993-1010` | signed machine remainder represents the remainder with the sign of the dividend |
| `FixedWidth.UDivCorrect` | `src/lona/analyze/function.cc:1104-1123` | unsigned machine division and remainder represent the ideal ones |
| `FixedWidth.AShrCorrect` | `src/lona/analyze/function.cc:1038-1064` | an arithmetic right shift represents division by a power of two rounded down |
| `FixedWidth.ShlCorrect` | `src/lona/analyze/function.cc:1011-1037` | a left shift represents multiplication by a power of two modulo the width |
| `FixedWidth.BitwiseCorrect` | `src/lona/analyze/function.cc:1065-1073` | bitwise operators represent the bitwise operators on infinite two's complement |
| `FixedWidth.BitsByArithmetic` | `src/lona/analyze/function.cc:1065-1073` | conjunction and disjunction add up to the sum of the operands and exclusive disjunction is their difference |
| `FixedWidth.ConjunctionWithConstants` | `src/lona/analyze/function.cc:1065-1073` | conjunction with no bits is zero and with all bits changes nothing |
| `FixedWidth.CompareCorrect` | `src/lona/analyze/function.cc:1074-1086` | signed and unsigned machine comparisons order the ideal values |
| `FixedWidth.WrapThroughHost` | `src/lona/analyze/function.cc:560-623` | narrowing through a wider host integer is one reduction modulo the target width |
| `InlineFold.EvalTyped` | `src/lona/sema/operatorresolver.cc:255-429` | evaluation of a well-typed expression stays within the type the operator resolver gives it |
| `InlineFold.SignedOpCorrect` | `src/lona/analyze/function.cc:962-1089` | every signed operator yields the wrapped ideal result or the fault of division by zero, overflow or shift range |
| `InlineFold.UnsignedOpCorrect` | `src/lona/analyze/function.cc:1091-1182` | the same for unsigned operators |
| `InlineFold.FoldCastCorrect` | `src/lona/analyze/function.cc:744-799` | a folded numeric cast is the value reduced modulo the width of the target, if and only if the target is not a narrow usize or the value fits it |
| `InlineFold.UsizeCastExact` | `src/lona/analyze/function.cc:591-615` | a cast to usize is right exactly when its value fits the pointer width |
| `InlineFold.NarrowUsizeCastMeaning` | `src/lona/analyze/function.cc:744-799` | on narrow targets a usize cast of any operand that folds preserves meaning if and only if the value of the operand fits |
| `InlineFold.NarrowUsizeCastFails` | `src/lona/analyze/function.cc:591-615` | a concrete narrow cast whose folded value is not what evaluation gives |
| `InlineFold.FoldShortCircuitAgrees` | `src/lona/analyze/function.cc:870-899` | a short-circuit operator folds as it evaluates; nothing is asked of a right operand that is not looked at |
| `InlineFold.FoldShortCircuitLooks` | `src/lona/analyze/function.cc:870-899` | when the left operand folds, the folder looks at the right one exactly when evaluation does, and otherwise its answer is the same for every right operand |
| `InlineFold.FoldAgrees` | `src/lona/analyze/function.cc:718-1206` | for every well-typed expression whose casts to a narrow usize are of values that fit, and every run-time environment, a folded value is what evaluation yields and a reported fault is one it meets |
| `InlineFold.FoldPreservesMeaning` | `src/lona/analyze/function.cc:718-1206` | under the same condition a folded value has the meaning and type of the expression in every environment and folds to itself |
| `InlineFold.FoldExactOnClosed` | `src/lona/analyze/function.cc:718-1206` | on closed expressions, under the same condition, the folder yields a value exactly when evaluation does and otherwise reports the same fault |
| `InlineFold.FoldErrorsAreReal` | `src/lona/analyze/function.cc:718-1206` | under the same condition a reported fault happens in every environment, and no constant escapes the scalar typing |
| `InlineFold.CastsAlwaysFit` | `src/lona/type/type.hh:755-763` | with 64-bit pointers that condition holds of every expression |
| `FoldLiterals.TypesAgree` | `src/lona/analyze/function.cc:560-623` | the constants of an integer type of the folder are exactly the values that its literals have |
| `FoldLiterals.CastLeavesValue` | `src/lona/analyze/function.cc:744-799` | casting a constant leaves its value alone exactly when it is in the range of the literals of the target, or is too large for a narrow usize |
| `FoldLiterals.ArithmeticFolds` | `src/lona/analyze/function.cc:962-1182` | sums, differences and products of literal values fold to the value of the type that is congruent to the ideal one, so to the ideal one where the type has it |
| `FoldLiterals.TypedWhereFolded` | `src/lona/sema/operatorresolver.cc:255-429` | on constants of one type an operator is typed exactly where folding it yields a value or a fault |
| `FoldLiterals.UnaryFolds` | `src/lona/analyze/function.cc:801-868` | identity, negation and complement of a literal value are typed and fold to the value of the type that is congruent to the ideal one |
| `FoldLiterals.ResultsAreNotConst` | `src/lona/sema/operatorresolver.cc:255-429` | the type of a result is never const |
| `FoldLiterals.BooleansAreBits` | `src/lona/analyze/function.cc:1184-1202` | bit logic on booleans is bit logic on one bit |
| `InlineEval.CyclesHaveNoValue` | `src/lona/analyze/function.cc:410-416` | nothing on a real dependency cycle has a memo-free value |
| `InlineEval.ValueFromNames` | `src/lona/analyze/function.cc:4238-4250` | the value of a definition is what the rest of its analysis makes of the values of its names in order |
| `InlineEval.TopLevelInlineEval.Require` | `src/lona/analyze/function.cc:396-436` | terminates; the active set is restored on every exit, memo entries are kept, a value is the memo-free one, and an acceptable declaration is never refused |
| `InlineEval.TopLevelInlineEval.AnalyzeTopLevelInlineDecl` | `src/lona/analyze/function.cc:317-394` | the body is analysed up to the target, memoising the inlines on the way with their memo-free values |
| `InlineEval.TopLevelInlineEval.AnalyzeVarDef` | `src/lona/analyze/function.cc:4238-4250` | the names of an initialiser are evaluated in order, local inlines from their binding and others by requiring them |
| `InlineEval.InlineValue` | `src/lona/analyze/function.cc:396-436` | a fresh evaluation gives a value exactly for acceptable declarations, the memo-free one, and never on a cycle |
| `InlineEval.AcceptableExactly` | `src/lona/analyze/function.cc:341-388` | a declaration is accepted if and only if everything pulled in has a value and pulling in has no cycle |
| `InlineEval.PrefixCyclesAreRefused` | `src/lona/analyze/function.cc:341-388` | cycles through definitions that merely come earlier in a module are refused too |
| `InlineEval.ConstantRefusedAsCyclic` | `src/lona/analyze/function.cc:341-416` | an inline that depends on nothing and has a value, refused at every depth |
| `Generics.InferenceIsConstraintSolving` | `src/lona/analyze/function.cc:5991-6127` | inference succeeds exactly when the constraints that pattern and type give rise to are consistent, and the result is their solution |
| `Generics.InferenceIsMonotone` | `src/lona/analyze/function.cc:6010-6022` | a bound parameter is never bound again, and no other name appears |
| `Generics.InferenceIgnoresOrder` | `src/lona/analyze/function.cc:6190-6218` | the result over an argument list does not depend on the order of the arguments |
| `Generics.SubstCanonical` | `src/lona/type/type.hh:900-912` | substitution never puts const on const at any depth of the type, when its bindings and the types in scope do not |
| `SignatureSpelling.InstanceIsWritten` | `src/lona/analyze/function.cc:5834-5989` | the instance of a signature type, written down, is the type expression with its names replaced by what they resolve to: const, dimensions and ref marks stand exactly where the expression or a replaced name has them |
| `SignatureSpelling.WrittenIsInjective` | `src/lona/type/type.hh:900-912` | what is written down determines the type |
| `Generics.InferenceUndoesSubstitution` | `src/lona/analyze/function.cc:5834-5989` | matching a pattern against its own instance recovers the assignment on every parameter reached, if and only if no const is lost |
| `Generics.ConstIsLost` | `src/lona/analyze/function.cc:5834-5989` | the pattern `T const` with T an `i32 const`: matching its instance gives T the type i32 |
| `Generics.SubstReproduces` | `src/lona/analyze/function.cc:5834-5989` | substituting a faithful solution gives the actual type back up to const, dimensions and binding kinds, if and only if the type has the shape of the pattern and agrees with it at the leaves that are not parameters |
| `Generics.InferenceIsSound` | `src/lona/analyze/function.cc:5991-6127` | substituting the inferred arguments gives the actual type up to const, dimensions and binding kinds, if and only if no branch bails out on a shape mismatch and the leaves that are not parameters agree |
| `Generics.LeavesAreNotCompared` | `src/lona/analyze/function.cc:5991-6127` | `Pair[T, i32]` against `Pair[bool, f64]`: T becomes bool although the instance is another type |
| `Generics.CallRecoversTypeArgs` | `src/lona/analyze/function.cc:6129-6227` | a call with instances of its parameter types recovers the type arguments if and only if these mention every parameter and no const is lost in any of them |
| `Generics.CallInferenceIsSound` | `src/lona/analyze/function.cc:6129-6227` | the type arguments inferred for a call give an argument its type, in the same sense, if and only if its formal type fits it |
| `Generics.TypeArgumentInference.InferFromPattern` | `src/lona/analyze/function.cc:5991-6127` | filling the selection in place computes the inference function and fails exactly when it reports a conflict |
| `Generics.TypeArgumentInference.BindParameter` | `src/lona/analyze/function.cc:6004-6023` | binding fills an empty entry, accepts the same type again and refuses another |
| `Instantiation.GenericInstanceRegistry.Claim` | `src/lona/module/generic_instance.hh:114-121` | the first claimant of a key is never replaced, and no other key is touched |
| `Instantiation.GenericInstanceRegistry.NoteEmission` | `src/lona/module/generic_instance.hh:123-139` | symbols are added without duplicates and nobody loses a claim |
| `Instantiation.UnitAnalyzer.ClaimEmission` | `src/lona/analyze/function.cc:1744-1757` | true exactly when this unit is the emitter afterwards |
| `Instantiation.UnitAnalyzer.EnterGuard` | `src/lona/analyze/function.cc:98-102` | the key is pushed on the stack of analyses that the in-progress set mirrors |
| `Instantiation.UnitAnalyzer.LeaveGuard` | `src/lona/analyze/function.cc:104-111` | the key leaves the set on every exit and counts as emitted only when completed |
| `Instantiation.UnitAnalyzer.NoPendingCulprit` | `src/lona/analyze/function.cc:2097-2157` | where every request of an emitted body is provided for, no chain of pending bodies leads from a provided key to a rejected body |
| `Instantiation.UnitAnalyzer.InstantiateGenericFunction` | `src/lona/analyze/function.cc:2097-2157` | terminates; keys in progress are those on the stack and restored on every exit, only bodies of emitted instances are added and none twice, and a unit only becomes the emitter of keys that had none; a failure comes with a chain of requests through bodies pending here to a rejected body, and after a success there is no such chain when different bodies have different symbols |
| `Instantiation.UnitAnalyzer.InstantiateFromCode` | `src/lona/analyze/function.cc:2097-2157` | fails if and only if requests lead through bodies that this unit has to emit to a rejected one; after a success whatever an emitted body requests is a C symbol, another unit's business or has a function here |
| `Instantiation.InstantiateInTwoUnits` | `src/lona/analyze/function.cc:1744-1757` | two units of one build never emit the same instance |
| `PromotedLookup.LevelSound` | `src/lona/analyze/function.cc:3377-3399` | a round of the search only holds paths of its length with their projected types |
| `PromotedLookup.LevelComplete` | `src/lona/analyze/function.cc:3377-3399` | every path of embedded fields is in the round of its length |
| `PromotedLookup.LookupPromotedValueMember` | `src/lona/analyze/function.cc:3401-3486` | terminates on acyclic embeddings; finds the path if and only if it is the only shallowest one that resolves the name, reports all of them when there are several, and nothing when there is none |
| `PromotedLookup.OutcomeIgnoresOrder` | `src/lona/analyze/function.cc:3382-3483` | the answer does not depend on the order in which members are iterated |
| `PromotedLookup.LookupMember` | `src/lona/analyze/function.cc:3488-3521` | a name the owner resolves itself, even ambiguously, is never promoted, and an injected member is used exactly when neither the owner nor any promoted path resolves the name |
| `PromotedLookup.MaterializePromotedPath` | `src/lona/analyze/function.cc:3549-3563` | walking the path again meets a value field at every segment, with the projected type |
| `PromotedLookup.LookupAndMaterialize` | `src/lona/analyze/function.cc:3544-3569` | the lowered receiver is the struct the search looked at and resolves the name in the same way |
| `PromotedLookup.ConstIsKept` | `src/lona/analyze/function.cc:2960-2979` | const is never lost along a path |
| `PromotedLookup.ConstExactly` | `src/lona/analyze/function.cc:2960-2979` | a member is const exactly when the owner is or a field on the way is const or read-only here |
| `CallArgs.IndexOfIsFirst` | `src/lona/analyze/function.cc:4986-4992` | a name denotes the first formal that has it |
| `CallArgs.CollectOrderedCallArgs` | `src/lona/analyze/function.cc:4959-5050` | with named arguments it succeeds exactly when the arguments fill every formal once, each is then in its slot and none is lost or added; a reported misuse is really there |
| `CallArgs.CoverIsInjective` | `src/lona/analyze/function.cc:5023-5035` | as many arguments as formals and none left out means none is given twice |
| `CallArgs.BindableCounts` | `src/lona/analyze/function.cc:5034-5047` | arguments that fill every formal once are as many as the formals |
| `CallArgs.PlacementIsPermutation` | `src/lona/analyze/function.cc:4994-5050` | a placement is a permutation of the arguments |
| `CallArgs.NamedOrderIsIrrelevant` | `src/lona/analyze/function.cc:4997-5035` | calls that differ in the order of their named arguments bind or fail together, and to the same |
| `CallArgs.BindCallArgs` | `src/lona/analyze/function.cc:5052-5084` | binding succeeds exactly when placement does, the count is right and every argument has the ref mark of its formal |
| `ArrayInit.StaticDimensions` | `src/lona/type/type.hh:578-600` | the fixed extents, or nothing when a written dimension is not a positive literal |
| `ArrayInit.StaticExtentsExactly` | `src/lona/type/type.hh:578-600` | there are fixed extents exactly when every written dimension is a positive literal, and they are the literals |
| `ArrayInit.ArrayIndexArity` | `src/lona/ast/array_dim.cc:18-27` | the number of written dimensions |
| `ArrayInit.ConsumeArrayOuterDimension` | `src/lona/analyze/function.cc:5468-5488` | computes the dimension vector of the elements |
| `ArrayInit.PeelingDropsTheFirst` | `src/lona/analyze/function.cc:5468-5488` | peeling drops exactly the first written dimension, in the legacy spelling as in the plain one |
| `ArrayInit.FitsIsFitsShape` | `src/lona/analyze/function.cc:5490-5506` | what fits an array type depends only on its flattened extents, down to the first that is not fixed, and its innermost element type |
| `ArrayInit.MaterializeArrayInit` | `src/lona/analyze/function.cc:5539-5635` | succeeds exactly for groups that fit; the result has the tree of the groups, with the array type of its level at every group, and every expression in its place under the type of that place |
| `ArrayInit.MirrorIsUnique` | `src/lona/analyze/function.cc:5587-5634` | the groups and the array type determine the result |
| `ArrayInit.MirrorReadsInOrder` | `src/lona/analyze/function.cc:5587-5634` | the result holds the expressions of the groups in reading order |
| `ArrayInit.InferArrayShape` | `src/lona/analyze/function.cc:5403-5466` | succeeds exactly for full trees whose elements have an element type, with their extents and that type, which is above the type of every expression in every order in which a common type is above what it was found for |
| `ArrayInit.ElementIsCommonType` | `src/lona/analyze/function.cc:5360-5385` | every expression of a group with an element type has a type, and the element type is above all of them in every such order |
| `ArrayInit.ElementArises` | `src/lona/analyze/function.cc:5360-5385` | the element type arises from the types of the expressions by finding common types; there is none only where an expression has no type, a group is empty, or two types that arise have no common one |
| `ArrayInit.PairIsMerged` | `src/lona/analyze/function.cc:5360-5385` | two expressions have their type if it is one, and else the common type of the two in their order |
| `ArrayInit.FullTreeUnique` | `src/lona/analyze/function.cc:5438-5456` | a nested group is a full tree for at most one list of extents |
| `ArrayInit.LeafCount` | `src/lona/analyze/function.cc:5403-5466` | a full tree has as many expressions as the product of its extents |
| `ArrayInit.BuildArrayTypeFromShape` | `src/lona/analyze/function.cc:5387-5401` | one array type with one dimension per extent, outermost first |
| `ArrayInit.NestedArrayExtents` | `src/lona/analyze/function.cc:5387-5401` | the built type has the inferred extents and element type |
| `ArrayInit.InferredTypeFits` | `src/lona/analyze/function.cc:5574-5631` | the inferred type accepts its own initialiser if and only if its elements are not arrays and convert to the common type |
| `ArrayInit.ArraysCannotBeListed` | `src/lona/analyze/function.cc:5613-5620` | two array expressions in braces get a type that refuses them |
| `ArrayInit.MaterializeInitList` | `src/lona/analyze/function.cc:5637-5668` | exactly which brace initialisers are accepted with and without an expected type, and the tree and types of the result, which are those of the inferred shape when no type is expected |
| `TypeSpelling.DescribeTypeNode` | `src/lona/ast/type_node_string.cc:7-93` | the printer's loops compute the printed form |
| `TypeSpelling.DescribeTypeNodes` | `src/lona/ast/type_node_string.cc:65-91` | lists are printed with separators between the parts |
| `TypeSpelling.PrintNeutral` | `src/lona/ast/type_node_string.cc:7-93` | printed types are balanced in all three kinds of brackets, with commas only inside |
| `NumericLiterals.PrintedNumberDenotes` | `src/lona/ast/array_dim.cc:94-112` | the decimal number printed for a dimension is that dimension |
| `TypeSpelling.SplitTopLevelTypeArguments` | `src/tooling/session.cc:1080-1125` | splits at the commas outside all brackets and trims the parts |
| `TypeSpelling.SplitAppliedTypeSpelling` | `src/tooling/session.cc:1127-1163` | the scanning loops compute the split of an applied spelling |
| `TypeSpelling.SplitOfPrinted` | `src/tooling/session.cc:1127-1163` | how every printed type splits: into a plain name without square brackets, into the text before a last bracket and the parts inside when that text has none, and not at all otherwise |
| `TypeSpelling.SplitRecoversAppliedType` | `src/tooling/session.cc:1080-1163` | splitting a printed applied type gives its printed base and its printed arguments, if and only if the base is not applied itself |
| `TypeSpelling.TwiceAppliedIsRefused` | `src/tooling/session.cc:1134-1163` | `Foo[A][B]` is refused |
| `TypeSpelling.SplitIgnoresConst` | `src/tooling/session.cc:1127-1137` | trailing const does not change the split |
| `TypeSpelling.IndexablePointerReadsAsApplied` | `src/tooling/session.cc:1134-1163` | a printed indexable pointer splits as its element type applied to a star when the element type prints no square bracket, and is refused otherwise |
| `TypeSpelling.ArrayReadsAsApplied` | `src/tooling/session.cc:1134-1163` | a printed array splits as its element type applied to its dimensions under the same condition, and is refused otherwise |
| `TypeSpelling.TrimProjectableTemplateLookupTypeSpelling` | `src/tooling/session.cc:1047-1078` | the suffix loop computes the fixpoint |
| `TypeSpelling.StripTextIsStrip` | `src/tooling/session.cc:3745-3764` | stripping the suffixes of a printed type prints the tree without its outer const, star and indexable nodes |
| `SpellingSubstitution.SubstTextIsSubstTree` | `src/tooling/session.cc:1266-1382` | textual substitution prints the substituted tree if and only if there are no dimensions and no ref parameters |
| `SpellingSubstitution.DimensionsAreMarks` | `src/tooling/session.cc:1266-1382` | `T[3]` with T an i32: the substituted spelling loses the three |
| `ModuleGraph.Graph.AddDependency` | `src/lona/module/module_graph.cc:141-149` | an edge is recorded once, with its reverse, and no other edge changes |
| `ModuleGraph.Graph.ResetDependencies` | `src/lona/module/module_graph.cc:122-139` | exactly the edges out of the module go, in both directions |
| `ModuleGraph.Graph.CollectDependentClosure` | `src/tooling/session.cc:4204-4217` | terminates on any graph with a duplicate-free list of exactly the modules that reach the path |
| `ModuleGraph.DroppingOwnEdges` | `src/tooling/session.cc:4560-4568` | dropping the edges out of a module does not change what reaches it |
| `ModuleGraph.Graph.CollectPostOrder` | `src/lona/module/module_graph.cc:12-23` | a call adds exactly the newly visited modules, all reachable, visits what they depend on, and keeps dependencies first |
| `ModuleGraph.Graph.PostOrderFrom` | `src/lona/module/module_graph.cc:169-179` | everything a module on record reaches, each once and after its dependencies unless they are on a cycle; nothing for an unknown one |
| `ModuleGraph.Graph.BelongsToEntrySet` | `src/tooling/session.cc:4224-4237` | true exactly when an entry on record reaches the module |
| `Sessions.LinesAreCounted` | `src/lona/source/source_manager.cc:10-24` | a text has as many lines as line breaks, and one more if something stands after the last |
| `Sessions.Workspace.InvalidateModuleAndDependents` | `src/tooling/session.cc:4560-4575` | the module loses its tree and edges, exactly the modules that reach it lose their interface, and none that keeps one reaches it |
| `Sessions.NothingStaleAfterInvalidation` | `src/tooling/session.cc:4560-4575` | the interfaces kept are exactly those that cannot reach the module, with or without its own edges |
| `Sessions.ReadsKeepUnchanged` | `src/lona/module/compilation_unit.cc:1497-1530` | reading sources again keeps exactly the interfaces of modules whose own text did not change, and their trees |
| `Sessions.LastReadCounts` | `src/lona/module/compilation_unit.cc:1497-1530` | a module has the text that was last read for it |
| `Sessions.UnreadIsKept` | `src/lona/module/compilation_unit.cc:1497-1530` | a module that was not read is as it was |
| `Sessions.Workspace.ReloadModule` | `src/tooling/session.cc:4604-4607` | invalidating a module, reading it again and loading what it depends on, with parsing and dependency discovery between the reads: when the module itself loads, what texts and interfaces result from the reads, and which interfaces above which modules are still held |
| `Sessions.Workspace.Load` | `src/lona/workspace/workspace_loader.cc:599-640` | breadth first from the entry: where loading ends well everything the entry reaches has the text of its file, and wherever it ends only texts of files were read |
| `Sessions.StaleAfterReload` | `src/lona/module/compilation_unit.cc:1497-1530` | after invalidating a module and rereading any sources, a module above another keeps its interface exactly when it had one, does not reach the invalidated module and did not change itself |
| `Sessions.StaleAfterRounds` | `src/tooling/session.cc:4486-4504` | after one round of invalidation and rereading for each entry, a module above another keeps its interface exactly when it had one, reached no entry when its turn came and did not change itself |
| `Sessions.MiddleModuleStaysStale` | `src/lona/workspace/workspace_loader.cc:599-640` | a module between the reloaded one and a changed dependency keeps its old interface, also when the whole project is reloaded |
| `Sessions.Workspace.LoadEntries` | `src/tooling/session.cc:4485-4504` | the entries offered are those the files, the roots and the error limit determine, and the interfaces are those that one round for each entry leaves |
| `Sessions.OfferedExactly` | `src/tooling/session.cc:4486-4504` | an entry is offered exactly when its file is readable under exactly one root and neither it nor an entry before it runs into the limit of errors |
| `Sessions.LoadsExactly` | `src/lona/workspace/workspace_loader.cc:182-221` | an entry loads exactly when its file can be read and lies under one root and no other |
| `Sessions.MatchedModuleRoot` | `src/lona/workspace/workspace_loader.cc:182-221` | a root is found exactly when one and only one root contains the file |
| `Sessions.Session.FinalizeActiveUnit` | `src/tooling/session.cc:4684-4699` | the session holds the tree of the active unit and the cursor is clamped to its lines |
| `Sessions.Session.Activate` | `src/tooling/session.cc:4701-4717` | succeeds exactly for modules on record that an entry reaches, and otherwise changes nothing |
| `Sessions.ChoiceIsExact` | `src/tooling/session.cc:4506-4527` | the module asked for is chosen exactly when an offered entry reaches it, so whenever it is offered itself; otherwise an entry is, unless none is offered |
| `Sessions.OpeningFallsBack` | `src/tooling/session.cc:4506-4527` | one entry loads and the module asked for does not: only the entry is offered, and it is chosen |
| `Sessions.Session.RebuildProject` | `src/tooling/session.cc:4471-4558` | keeps the session invariant; in file mode it succeeds exactly when an entry is offered, the active module is the one chosen from the offered entries, and interfaces that the rounds over the entries leave are held; in memory mode it succeeds exactly when parsing ends |
| `Sessions.Session.SetRootPaths` | `src/tooling/session.cc:4412-4433` | nothing is loaded afterwards, the accepted roots are configured, and it succeeds exactly when there are some |
| `Sessions.Session.SetSourceText` | `src/tooling/session.cc:4435-4445` | memory mode with no roots and no entries, under the given name or a default one, with the given text as the source of its unit and the cursor before it; active exactly when parsing ends |
| `Sessions.Session.Reload` | `src/tooling/session.cc:4447-4458` | changes nothing when there is nothing to reload; otherwise the active module is chosen from the entries that load, the cursor stays where the source still has its line, and interfaces that the rounds over the entries leave are held |
| `Sessions.Session.ReloadFile` | `src/tooling/session.cc:4577-4634` | keeps the invariant and the entries; succeeds exactly when an entry reached the module, its file loads and loading meets no file or root error; when it ends well everything the module reaches has the text of its file; interfaces that the reread leaves are held; the module that was active is active again exactly when an entry still reaches it, else the first entry on record is, and without any no module is |
| `Sessions.Session.GotoModule` | `src/tooling/session.cc:4636-4672` | a module that an entry reaches becomes active with its cursor reset; any other becomes an entry, success then means that some entry loads, and the active module is the requested one when it loads before the error limit, and exactly when an entry that does reaches it |
| `Sessions.Session.GotoLine` | `src/tooling/session.cc:4719-4752` | moves the cursor exactly for lines of the current source, and otherwise changes nothing |
| `Sessions.RunSession` | `src/tooling/session.hh:76-123` | after any sequence of operations a loaded source has a current unit whose tree is the session's, a cursor within its lines, distinct entries, and in file mode an entry that reaches it |
| `TypeExpansion.FindIsFirst` | `src/tooling/session.cc:2372-2382` | a qualified name finds the first record that has it |
| `TypeExpansion.FindUniqueNamedTypeByName` | `src/tooling/session.cc:2384-2399` | a simple name finds a record only when no other has it |
| `TypeExpansion.NamedAreNamed` | `src/tooling/session.cc:2384-2399` | the records counted for a simple name are exactly those that have it |
| `TypeExpansion.InnermostScopeWins` | `src/tooling/session.cc:2426-2438` | among the enclosing scopes that have the name the innermost is taken |
| `TypeExpansion.ResolveNamedTypeRecord` | `src/tooling/session.cc:2401-2441` | the scope loop computes the resolution that the next row is about |
| `TypeExpansion.ResolveIsMeaning` | `src/tooling/session.cc:2401-2441` | a name that is not built in is the record with that qualified name; a simple one without is the first record of the innermost enclosing scope that has it, and only where none has it the record that alone has the name |
| `TypeExpansion.TypeExpander.MakeTypeInfo` | `src/tooling/session.cc:2655-2760` | terminates on any recursive structs, restores the active set, and computes the expansion on that path; a named or applied type shows the record that its name means, with its qualified name and all its fields in order |
| `TypeExpansion.NamedTypesAreOpened` | `src/tooling/session.cc:2721-2746` | a named or applied type is a struct exactly when its name means a record, shows the fields of that record unless it is open already, and each in the scope of that record |
| `TypeExpansion.ExpansionIsWellMarked` | `src/tooling/session.cc:2671-2745` | a node is marked recursive exactly when its struct is above it, and is then not opened |
| `TypeExpansion.ConstForwards` | `src/tooling/session.cc:2671-2684` | const changes neither members nor mark |
| `TypeExpansion.FieldsAreShown` | `src/tooling/session.cc:2730-2741` | an opened struct shows all its fields in order, expanded in its own scope |
| `TypeExpansion.ItemsAreShown` | `src/tooling/session.cc:2634-2653` | a tuple shows its items in order, numbered from one |
| `TypeExpansion.KindsAreSpelled` | `src/tooling/session.cc:2671-2760` | the kind agrees with the spelling, and builtin exactly for builtin root names |
| `TypeExpansion.RootIsPrinted` | `src/tooling/session.cc:2360-2370` | the root name is what the spelling starts with, up to the first bracket or blank |
| `TypeExpansion.NamedHaveRoots` | `src/tooling/session.cc:2360-2370` | every named or applied type has a root, unless it is any that is applied |
| `TypeExpansion.SuffixesAreBuiltin` | `src/tooling/session.cc:2334-2343` | whatever a literal can be suffixed with is a builtin name |
| `ByteStrings.EscapeAstByteStringForJson` | `src/lona/ast/astnode_toJson.cc:64-105` | the loop computes the written form |
| `ByteStrings.StrEscape` | `src/lona/ast/token.cc:16-94` | computes what the text stands for, never reads past the end and never lengthens it |
| `ByteStrings.ReadEscape` | `src/lona/ast/token.cc:34-87` | one escape: its bytes and its length, for every text |
| `ByteStrings.SimpleEscapes` | `src/lona/ast/token.cc:34-87` | what a backslash before each character stands for, unknown ones keeping it |
| `ByteStrings.HexEscape` | `src/lona/ast/token.cc:61-80` | two hexadecimal digits in either case are one byte |
| `ByteStrings.ShortHexEscape` | `src/lona/ast/token.cc:61-80` | so is one that no other follows |
| `ByteStrings.PlainTextIsItself` | `src/lona/ast/token.cc:16-94` | text without a backslash stands for itself |
| `ByteStrings.UnescapeUndoesEscape` | `src/lona/ast/token.cc:16-94` | reading what was written gives every byte string back |
| `ByteStrings.EscapeIsInjective` | `src/lona/ast/astnode_toJson.cc:64-105` | different byte strings are written differently |
| `ByteStrings.EscapeIsPrintable` | `src/lona/ast/astnode_toJson.cc:71-102` | the written form is printable ASCII and at most four times as long |
| `ByteStrings.WrittenForm` | `src/lona/ast/astnode_toJson.cc:71-102` | each byte is written in the shortest form there is for it, in capital digits |
| `ByteStrings.EscapeHidesQuotes` | `src/lona/ast/astnode_toJson.cc:71-102` | quotes in the written form are always escaped |
| `NumericLiterals.AtMostOneSuffix` | `src/lona/ast/astnode.cc:34-42` | at most one suffix can match a literal |
| `NumericLiterals.SplitSuffix` | `src/lona/ast/astnode.cc:95-111` | the search over the table finds the suffix, or none matches |
| `NumericLiterals.SuffixNamesType` | `src/lona/ast/astnode.cc:34-42` | a suffix names its type: the kind of number and its width |
| `NumericLiterals.ParseUnsignedMagnitude` | `src/lona/ast/astnode.cc:52-75` | the value of the digits without separators, when they are digits of the base and fit 64 bits |
| `NumericLiterals.ParseNumericLiteralToken` | `src/lona/ast/astnode.cc:90-186` | the literal that suffix, prefix and digits determine |
| `NumericLiterals.BasePrefixes` | `src/lona/ast/astnode.cc:150-170` | the lower-case prefixes of the three bases are the only ones |
| `NumericLiterals.FractionsAreRead` | `src/lona/ast/astnode.cc:113-148` | digits around a point are a fraction of 64 bits or of the type of their suffix, which must not be that of an integer |
| `NumericLiterals.LiteralDenotes` | `src/lona/sema/initializer.cc:148-316` | a magnitude, alone or under minus, denotes that number exactly when it is a value of the type on the target |
| `NumericLiterals.DigitTextDenotes` | `src/lona/ast/astnode.cc:64-75` | writing a number in a base and reading it gives the number |
| `NumericLiterals.CaseIsIrrelevant` | `src/lona/ast/astnode.cc:64-75` | letters count the same in either case |
| `NumericLiterals.SuffixedLiteralDenotes` | `src/lona/ast/astnode.cc:150-185` | digits with any separators and a suffix denote their value with that type |
| `NumericLiterals.ValuesRoundTrip` | `src/lona/ast/astnode.cc:368-518` | every value of every integer type, written in base 2, 8, 10 or 16 with letters in either case, any separators and its suffix, is read back |
| `NumericLiterals.UnsuffixedLiteralDenotes` | `src/lona/ast/astnode.cc:95-111` | unsuffixed digits denote their value if and only if they do not end, in base 16, like a float suffix |
| `NumericLiterals.HexReadAsFloat` | `src/lona/ast/astnode.cc:95-111` | a hexadecimal literal read as a floating-point one |

## Left out

- Floating-point folding and literals: a literal with a point is recognised but its value is not computed.
- LLVM emission, ABI lowering, metadata, the LLVM values behind functions and types.
- Types are compared structurally; the interning of the type table, which makes the program's comparison of
  addresses the same thing, is not part of this model.
- Null type nodes, null expressions and missing bindings, which the program treats as internal errors.
- The wording and location of diagnostics, memory ownership, caches of resolved types, statistics.
- Operator typing beyond what the folder needs; string constants inside the folder other than as addresses.
- Explicit type arguments of a call, trait bounds, and the resolution of type names in a signature, which is a
  table here.
- Instances of generic struct methods and trait methods, which repeat the protocol of generic functions.
- A set of instance keys that grows without end: the universe of templates is a finite map, as it is for
  programs that can be compiled; polymorphic recursion is outside.
- Two instances with bodies of their own and the same symbol: the exact criterion for failure assumes there are none.
- Extension methods, trait methods and visibility in member lookup: a struct has a table of what its
  non-field names resolve to.
- Structs that embed each other in a cycle: by-value layout rules them out, and lookup is modelled without them.
- Array extents beyond i32, which the program cannot write as a dimension.
- The common type of array elements and the conversion of an element are parameters.
- The parser and the search for files: which modules a text imports and which tree it has are arbitrary. Readable
  files, their roots and how loading below a module ends are inputs that stay the same during a call. Source paths
  are taken to be normalised already.
- Sessions.Workspace.Analyze: which interfaces analysis collects is arbitrary; it may collect none.
- The list of semantic diagnostics, the symbol index and the output of the query tool.
- Unary minus on floating-point literals.
- Instantiation.UnitAnalyzer.AnalyzeBody: the analysis of a body is the list of instances it requests and where
  it is rejected.
- CallArgs.BindCallArgs: types, addressability and coercions of the arguments, which need the whole type checker.
- NumericLiterals.ParseNumericLiteralToken: the value of a literal with a point; its text without separators is
  kept. The lexer lets only digits around one point through (`grammar/lexer.lex:71`), which the program's
  conversion always accepts.
- NumericLiterals.LiteralDenotes: minus on an unsigned literal, which is an operator on a value there and not part
  of the literal.
- Sessions.Session.ReloadFile: which interfaces analysis collects again; the contract says which are kept at least.
- InlineEval.TopLevelInlineEval.AnalyzeVarDef: typing and folding of an initialiser are one partial function of
  the values of its names.
- ByteStrings.StrEscape: letters in escapes are compared as ASCII, without a locale.
