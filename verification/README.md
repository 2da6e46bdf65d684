# TreeUtil — a Dafny model of j2objc's AST utility kernel

j2objc translates Java to Objective-C. Its translator works on a mutable, parent-linked
syntax tree, and `TreeUtil` is the toolbox every translation pass uses to navigate and
rewrite it. This project models that toolbox:

- the ancestor queries (`getNearestAncestorWithType`, `getNearestAncestorWithTypeOneOf`
  and the "enclosing X" accessors built on them);
- expression dispatch (`trimParentheses`, `getVariableElement`, `getExecutableElement`);
- the body-declaration views of type declarations and the lazy fragment iterator behind
  `asFragments`;
- the mutation-safe statement lists (`asStatementList` and its lone-statement list
  that promotes its statement into a new `Block` on first insertion), with
  `insertBefore` and `insertAfter`;
- `remove`, `copyList`, `moveList`;
- the `sortMethods` comparator and a stable sort driven by it;
- the qualified main type name and the source file name of a compilation unit.

The tree (module `Tree`) is a finite map from node ids to nodes. Each node records
its kind, its parent, its principal child list and its resolved element. A fresh-id
allocator stands for object creation. Well-formedness (`Tree.Wf`) says three things:
parent and child links agree, no child list repeats a node, and the parent links are
acyclic. Every mutating operation is proved to preserve it. The node operations that
`TreeUtil` calls are modelled as primitives: `remove`, `replaceWith`, child-list
insertion and node creation. Their own class files are not part of this model.

Java exceptions become values. The statement lists return a `Fault`
(`IndexOutOfBounds`, or `NoParent` for the null-pointer failure when a parentless
lone statement is promoted) together with the tree as it stands at that point.

The `sortMethods` comparator is modelled as written, and one consequence is proved.
Its name test is case-sensitive (`equals`) but the ordering is case-insensitive
(`compareToIgnoreCase`). So two methods whose names differ only in case compare
equal whatever their parameters are, and "compares equal" is not transitive
(`MethodOrder.CompareNotTransitive`). The sort itself is a stable insertion sort
standing in for `Collections.sort`. For every input, the model proves that the
comparator is antisymmetric and that the sorted list is a permutation of the input.
Call a list of declarations case-consistent when no two of their names differ only
in case, and when two declarations with the same name have no shared parameter
position whose type names differ only in case. On case-consistent lists the
comparator is a total preorder and the model proves more:
- the sorted list is in order between any two positions;
- declarations with equal keys keep their relative order.

Every stable sort gives the same list on such inputs, so these facts hold of the
program too. When two names, or two same-named declarations' parameter type names
at one position, do differ only in case, "compares equal" is not transitive
(`MethodOrder.CompareNotTransitive`, `MethodOrder.CompareNotTransitiveParams`), and
`Collections.sort` and the insertion sort can return different lists. Two declarations with equal keys can then
come out in either order.

## Model

| member | source | states |
|---|---|---|
| Ancestry.NearestAncestorWithType | translator/src/main/java/com/google/devtools/j2objc/ast/TreeUtil.java:108-116 | the result is the first node on the chain from `node` (itself included) up to the root whose kind is in the class; null when there is none or `node` is null |
| Ancestry.NearestStep | translator/src/main/java/com/google/devtools/j2objc/ast/TreeUtil.java:108-116 | a node outside the class has the same nearest match as its parent |
| Ancestry.NearestOfKindUnique | translator/src/main/java/com/google/devtools/j2objc/ast/TreeUtil.java:108-116 | a nearest-ancestor query has at most one answer |
| Ancestry.MatchesOneOf | translator/src/main/java/com/google/devtools/j2objc/ast/TreeUtil.java:121-125 | the inner loop accepts a kind exactly when some class of the list contains it |
| Ancestry.UnionOf | translator/src/main/java/com/google/devtools/j2objc/ast/TreeUtil.java:118-129 | the set of kinds accepted by a class list is exactly the set the inner loop accepts |
| Ancestry.NearestAncestorWithTypeOneOf | translator/src/main/java/com/google/devtools/j2objc/ast/TreeUtil.java:118-129 | the multi-class walk gives the same answer as the single-class walk for the union of the classes |
| Ancestry.EnclosingMethod | translator/src/main/java/com/google/devtools/j2objc/ast/TreeUtil.java:141-143 | the nearest method declaration on the chain |
| Ancestry.OwningStatement | translator/src/main/java/com/google/devtools/j2objc/ast/TreeUtil.java:159-161 | the nearest statement on the chain; a statement is its own owner |
| Ancestry.CompilationUnitOf | translator/src/main/java/com/google/devtools/j2objc/ast/TreeUtil.java:166-168 | the nearest compilation unit on the chain |
| Ancestry.EnclosingType | translator/src/main/java/com/google/devtools/j2objc/ast/TreeUtil.java:312-317 | the nearest type or anonymous-class declaration on the chain |
| Ancestry.DeclaredElement | translator/src/main/java/com/google/devtools/j2objc/ast/TreeUtil.java:248-259 | a type, anonymous-class, method or variable declaration yields its element; any other kind, or null, yields none |
| Ancestry.EnclosingElement | translator/src/main/java/com/google/devtools/j2objc/ast/TreeUtil.java:343-349 | the element of the nearest declaring node on the chain, none when there is no such node |
| Ancestry.EnclosingTypeElement | translator/src/main/java/com/google/devtools/j2objc/ast/TreeUtil.java:323-332 | the element of the nearest type or anonymous-class declaration, none when there is none |
| Expressions.TrimParentheses | translator/src/main/java/com/google/devtools/j2objc/ast/TreeUtil.java:134-139 | null gives null; a non-parenthesized expression comes back unchanged; otherwise a non-null result is reached by repeatedly taking the inner expression and is not parenthesized, and a null result means the walk reached a missing inner expression |
| Expressions.TrimParenthesesIdempotent | translator/src/main/java/com/google/devtools/j2objc/ast/TreeUtil.java:134-139 | trimming a trimmed expression, null included, changes nothing |
| Expressions.NameVariableElement | translator/src/main/java/com/google/devtools/j2objc/ast/TreeUtil.java:290-293 | a name's element when, and only when, it is a variable |
| Expressions.VariableElement | translator/src/main/java/com/google/devtools/j2objc/ast/TreeUtil.java:269-282 | after trimming parentheses: a field or super-field access yields its element; a name yields its element when that is a variable; every other kind yields none |
| Expressions.VariableElementSeesThroughParentheses | translator/src/main/java/com/google/devtools/j2objc/ast/TreeUtil.java:269-282 | wrapping an expression in parentheses does not change the variable it refers to |
| Expressions.ExecutableElement | translator/src/main/java/com/google/devtools/j2objc/ast/TreeUtil.java:299-310 | an instance creation or a method or super-method invocation yields its element; every other kind yields none |
| Expressions.ExecutableElementDoesNotSeeThroughParentheses | translator/src/main/java/com/google/devtools/j2objc/ast/TreeUtil.java:299-310 | a parenthesized invocation yields no method, though its trimmed form does, because parentheses are not trimmed here |
| Declarations.BodyDeclarations | translator/src/main/java/com/google/devtools/j2objc/ast/TreeUtil.java:227-236 | the body of a type or anonymous-class declaration holds exactly the nodes whose parent it is |
| Declarations.AsDeclarationSublist | translator/src/main/java/com/google/devtools/j2objc/ast/TreeUtil.java:238-243 | a one-element window into the parent's body that holds exactly the declaration |
| Declarations.EnclosingTypeBodyDeclarations | translator/src/main/java/com/google/devtools/j2objc/ast/TreeUtil.java:334-336 | the body of the nearest enclosing type or anonymous class |
| Declarations.OfKind | translator/src/main/java/com/google/devtools/j2objc/ast/TreeUtil.java:170-172 | filtering by class keeps exactly the declarations of that kind and never lengthens the list |
| Declarations.OfKindAppend | translator/src/main/java/com/google/devtools/j2objc/ast/TreeUtil.java:170-172 | filtering keeps order: it distributes over concatenation |
| Declarations.FieldDeclarations | translator/src/main/java/com/google/devtools/j2objc/ast/TreeUtil.java:170-176 | exactly the type's body declarations that are field declarations |
| Declarations.MethodDeclarations | translator/src/main/java/com/google/devtools/j2objc/ast/TreeUtil.java:206-220 | exactly the method declarations in the body of a type or anonymous-class declaration |
| Declarations.FunctionDeclarations | translator/src/main/java/com/google/devtools/j2objc/ast/TreeUtil.java:222-225 | exactly the type's body declarations that are function declarations |
| Declarations.AnnotationMembers | translator/src/main/java/com/google/devtools/j2objc/ast/TreeUtil.java:500-504 | exactly the type's body declarations that are annotation type members |
| Declarations.AsFragments | translator/src/main/java/com/google/devtools/j2objc/ast/TreeUtil.java:182-204 | a fragment is produced exactly when it belongs to one of the field declarations |
| Declarations.ComputeNext | translator/src/main/java/com/google/devtools/j2objc/ast/TreeUtil.java:189-199 | the iterator step ends the data exactly when nothing is pending; otherwise it yields the first pending fragment and leaves the rest pending, skipping fields without fragments |
| Declarations.IterateFragments | translator/src/main/java/com/google/devtools/j2objc/ast/TreeUtil.java:182-204 | running the lazy iterator to its end yields exactly the field-by-field flattening |
| Declarations.AllFields | translator/src/main/java/com/google/devtools/j2objc/ast/TreeUtil.java:178-180 | exactly the fragments whose field declaration is in the type's body |
| StatementLists.Size | translator/src/main/java/com/google/devtools/j2objc/ast/TreeUtil.java:429-434 | `size()` is the number of elements the list presents |
| StatementLists.Get | translator/src/main/java/com/google/devtools/j2objc/ast/TreeUtil.java:418-426 | `get(i)` is the element at `i` for an index in range, and an out-of-bounds fault otherwise; an unpromoted lone list presents only its statement |
| StatementLists.AsStatementList | translator/src/main/java/com/google/devtools/j2objc/ast/TreeUtil.java:378-392 | a Block gives its own statements; a statement directly inside a Block gives the one-element window at its index; anything else gives an unpromoted lone list; every list first presents exactly `[s]` unless `s` is a Block |
| StatementLists.Promote | translator/src/main/java/com/google/devtools/j2objc/ast/TreeUtil.java:407-415 | the first `getDelegate()` puts a new Block in the statement's slot in its parent, with the statement as its only child; every other node is unchanged |
| StatementLists.AddToDelegate | translator/src/main/java/com/google/devtools/j2objc/ast/TreeUtil.java:437-439 | inserting through a Block, a window or a promoted list inserts into the elements at `idx`. The Block's child list gets `x` at the shifted index, and nothing else of the Block changes. `x` changes only its parent link, which now points to the Block. Every other node is unchanged. An out-of-range index faults and changes nothing |
| StatementLists.PromoteAndAdd | translator/src/main/java/com/google/devtools/j2objc/ast/TreeUtil.java:407-415 | on an unpromoted lone list `add` first promotes; the index is checked afterwards, so an out-of-range index leaves the Block in place |
| StatementLists.PromoteAndAddInPlace | translator/src/main/java/com/google/devtools/j2objc/ast/TreeUtil.java:407-415 | after promotion and insertion the new Block holds the statement's old slot in the parent. The Block is a Block with no element. The statement and the inserted node change only their parent links, which now point to the Block. No other node has changed |
| StatementLists.Add | translator/src/main/java/com/google/devtools/j2objc/ast/TreeUtil.java:437-439 | `add(idx, x)` on any list inserts `x` at `idx` of the presented elements or faults: `NoParent` exactly for a parentless lone statement, `IndexOutOfBounds` exactly for an index outside 0..size |
| StatementLists.AddInPlace | translator/src/main/java/com/google/devtools/j2objc/ast/TreeUtil.java:437-439 | a list that already has a delegate changes only its Block's child list and the inserted node's parent link; promotion changes only the promoted slot, the new Block and the parent links of the statements below it |
| StatementLists.InsertAfter | translator/src/main/java/com/google/devtools/j2objc/ast/TreeUtil.java:442-444 | `insertAfter` faults exactly when the statement is not a Block and has no parent, and then changes nothing |
| StatementLists.InsertBefore | translator/src/main/java/com/google/devtools/j2objc/ast/TreeUtil.java:446-448 | `insertBefore` faults exactly when the statement is not a Block and has no parent, and then changes nothing |
| StatementLists.InsertIntoBlock | translator/src/main/java/com/google/devtools/j2objc/ast/TreeUtil.java:442-448 | on a Block, `insertAfter` appends to its statements and `insertBefore` prepends. Nothing else of the Block changes, `x` changes only its parent link, and no other node changes |
| StatementLists.InsertNextToStatement | translator/src/main/java/com/google/devtools/j2objc/ast/TreeUtil.java:442-448 | next to a statement directly inside a Block, `x` goes just after (or just before) it. No other statement moves and nothing else of the Block changes. `x` changes only its parent link, and no other node changes |
| StatementLists.InsertAfterLone | translator/src/main/java/com/google/devtools/j2objc/ast/TreeUtil.java:398-448 | next to a lone statement, `insertAfter` puts a new Block `[s, x]` in its place |
| StatementLists.InsertBeforeLone | translator/src/main/java/com/google/devtools/j2objc/ast/TreeUtil.java:398-448 | next to a lone statement, `insertBefore` puts a new Block `[x, s]` in its place |
| StatementLists.InsertAfterFirstOfTwo | translator/src/main/java/com/google/devtools/j2objc/ast/TreeUtil.java:442-444 | `insertAfter` next to the first statement of a Block `[s, x]` gives `[s, u, x]` and adds no node |
| StatementLists.InsertAfterTwice | translator/src/main/java/com/google/devtools/j2objc/ast/TreeUtil.java:378-448 | a second `insertAfter` next to a promoted statement finds it in the Block the first call made: `[s, x]` becomes `[s, u, x]` and no further Block is created |
| StatementLists.LonelyPromotesOnce | translator/src/main/java/com/google/devtools/j2objc/ast/TreeUtil.java:407-415 | two insertions through one lone list create exactly one Block |
| ListHelpers.RemoveNode | translator/src/main/java/com/google/devtools/j2objc/ast/TreeUtil.java:46-52 | null gives null; otherwise the node comes back with no parent and in no child list, and keeps its kind, children and element; exactly its entry is deleted from its old parent's child list, with nothing else of the parent changed; a parentless node leaves the tree as it was; every other node is unchanged |
| ListHelpers.RemoveIdempotent | translator/src/main/java/com/google/devtools/j2objc/ast/TreeUtil.java:46-52 | removing twice is removing once |
| ListHelpers.CopyList | translator/src/main/java/com/google/devtools/j2objc/ast/TreeUtil.java:54-65 | `to` is kept as a prefix, and a fresh copy of every element of `from` is appended in order; the copies are pairwise distinct and the old nodes are unchanged |
| ListHelpers.MoveList | translator/src/main/java/com/google/devtools/j2objc/ast/TreeUtil.java:67-77 | `from` ends empty and `to` ends as `to + from`; after each removal and each append the lists are as recorded in the trace |
| ListHelpers.MoveListNeverInBoth | translator/src/main/java/com/google/devtools/j2objc/ast/TreeUtil.java:67-77 | if the two lists start disjoint, no element is ever in both, and an element in transit is in neither |
| MethodOrder.CompareToIgnoreCase | translator/src/main/java/com/google/devtools/j2objc/ast/TreeUtil.java:483 | zero exactly when the case-folded strings are equal, negative exactly when the folded first string is lexicographically smaller |
| MethodOrder.CompareToIgnoreCaseAntisymmetric | translator/src/main/java/com/google/devtools/j2objc/ast/TreeUtil.java:483 | swapping the arguments negates the result |
| MethodOrder.ParamCompare | translator/src/main/java/com/google/devtools/j2objc/ast/TreeUtil.java:485-495 | parameter lists equal up to case compare equal; if no shared position differs only in case, the sign follows the lexicographic order of the folded lists, a proper prefix first |
| MethodOrder.ParamCompareFirstDifference | translator/src/main/java/com/google/devtools/j2objc/ast/TreeUtil.java:487-493 | for any two lists, the result is `compareToIgnoreCase` of the type names at the first position where they differ as written, even when those names differ only in case |
| MethodOrder.ParamComparePrefix | translator/src/main/java/com/google/devtools/j2objc/ast/TreeUtil.java:485-495 | when one list is a prefix of the other, as written, the result is the difference of the lengths |
| MethodOrder.CompareSameName | translator/src/main/java/com/google/devtools/j2objc/ast/TreeUtil.java:474-496 | two declarations of the same rank and name, as written, are ordered by the first differing parameter type name, case-insensitively, and otherwise by the difference of the parameter counts |
| MethodOrder.ParamCompareAntisymmetric | translator/src/main/java/com/google/devtools/j2objc/ast/TreeUtil.java:485-495 | swapping the parameter lists negates the result |
| MethodOrder.Compare | translator/src/main/java/com/google/devtools/j2objc/ast/TreeUtil.java:474-496 | a constructor precedes a non-constructor; different names compare by their case-folded order; equal keys compare equal; for case-consistent declarations the sign is exactly the key order |
| MethodOrder.CompareAntisymmetric | translator/src/main/java/com/google/devtools/j2objc/ast/TreeUtil.java:474-496 | swapping the declarations flips the sign |
| MethodOrder.CompareNotTransitive | translator/src/main/java/com/google/devtools/j2objc/ast/TreeUtil.java:474-496 | with names that differ only in case, comparing equal is not transitive |
| MethodOrder.CompareNotTransitiveParams | translator/src/main/java/com/google/devtools/j2objc/ast/TreeUtil.java:485-495 | with one name, parameter type names that differ only in case also make comparing equal intransitive, on a list that is not case-consistent |
| MethodOrder.KeyLessTransitive | translator/src/main/java/com/google/devtools/j2objc/ast/TreeUtil.java:463-469 | the documented order (constructors, then name, then parameter types) is transitive |
| MethodOrder.KeyLessTotal | translator/src/main/java/com/google/devtools/j2objc/ast/TreeUtil.java:463-469 | the documented order is total and asymmetric |
| MethodOrder.InsertSorted | translator/src/main/java/com/google/devtools/j2objc/ast/TreeUtil.java:470-498 | one insertion step adds exactly the new element |
| MethodOrder.SortMethods | translator/src/main/java/com/google/devtools/j2objc/ast/TreeUtil.java:470-498 | the sorted list is a permutation of the input |
| MethodOrder.SortMethodsAdjacent | translator/src/main/java/com/google/devtools/j2objc/ast/TreeUtil.java:470-498 | every neighbouring pair of the sorted list is in comparator order |
| MethodOrder.SortMethodsStable | translator/src/main/java/com/google/devtools/j2objc/ast/TreeUtil.java:470-498 | on a case-consistent list (no two names differ only in case, and same-named declarations have no shared parameter position whose type names differ only in case), declarations with equal keys keep their relative order |
| MethodOrder.SortMethodsSorted | translator/src/main/java/com/google/devtools/j2objc/ast/TreeUtil.java:470-498 | on a case-consistent list (as for SortMethodsStable), every pair of the sorted list is in comparator order |
| SourceNames.QualifiedMainTypeName | translator/src/main/java/com/google/devtools/j2objc/ast/TreeUtil.java:354-361 | the default package gives the main type name; any other package gives the package name, a dot, then the main type name |
| SourceNames.QualifiedNameSplits | translator/src/main/java/com/google/devtools/j2objc/ast/TreeUtil.java:354-361 | for a main type name without dots, the package and the main type name can be read back from the qualified name |
| SourceNames.SourceFileName | translator/src/main/java/com/google/devtools/j2objc/ast/TreeUtil.java:367-369 | every dot of the qualified name becomes the separator, nothing else changes, and `.java` is appended |
| SourceNames.SourceFileNameRoundTrip | translator/src/main/java/com/google/devtools/j2objc/ast/TreeUtil.java:367-369 | if the separator does not occur in the qualified name, turning separators back into dots and dropping `.java` recovers the qualified name |

## Left out

- Annotation lookups (lines 79-106) are left out: they compare type mirrors by qualified name through the type system, which is not part of this model.
- `getOwningReturnType` (151-154) is left out: it reads a return type from an executable element that an external resolver produces.
- The binding helpers are left out: `getVariableBinding`, `getMethodBinding`, `getEnclosingTypeBinding` and `getEnclosingMethodBinding` (265-267, 284-288, 295-297, 319-321, 338-341). They only hand an element to `BindingConverter`, which is not part of this model.
- `newLiteral` (450-461) is left out: it builds literal nodes from boxed Java values using the type environment.
- `TreeNode`, `ChildList` and the node classes are not part of this model. Four primitives in module `Tree` stand in for them: `Tree.Detach` for `remove`, `Tree.ReplaceWith` for `replaceWith`, `Tree.InsertChild` for `ChildList.add`, and `Tree.NewNode` for node creation. They follow what `TreeUtil` relies on: one principal child list per node, and an inserted node must be parentless and must not be an ancestor of its new parent.
- ListHelpers.CopyList: `copy()` is modelled as a fresh, parentless and childless node of the same kind and element; the deep copy of the subtree is left out.
- ListHelpers.MoveList: both `copyList` and `moveList` work on plain sequences that no node owns. When `toList` or `fromList` is a node's `ChildList`, Java's `add` sets each node's parent to the owner and `iter.remove()` clears it. Those parent links are not modelled, so "never parented twice" is stated only as list membership (`ListHelpers.MoveListNeverInBoth`).
- ListHelpers.RemoveNode: removing a node that has no parent is modelled as a no-op.
- `getFieldDeclarations`, `getMethodDeclarations`, `getFunctionDeclarations`, `getAllFields` and `asFragments` return lazy Guava views. The model computes them eagerly as sequences; `Declarations.IterateFragments` proves that the lazy iterator yields the same sequence.
- Declarations.BodyDeclarations: the `AssertionError` for a node that has no body declarations is a precondition. `Declarations.EnclosingTypeBodyDeclarations` likewise requires an enclosing type.
- MethodOrder.CompareToIgnoreCase: case folding covers ASCII letters only. Java's per-character Unicode upper/lower folding is not modelled.
- MethodOrder.SortMethods: a stable insertion sort replaces `Collections.sort` (TimSort). TimSort's "comparison method violates its general contract" exception is not modelled; the non-transitive comparator can trigger it.
- MethodOrder.SortMethodsStable: requires a case-consistent list: no two names differ only in case, and same-named declarations have no shared parameter position whose type names differ only in case. Without that condition TimSort can reorder declarations with equal keys. For example, sorting `[foo(long), foo(Object), foo(String), Foo(int), foo(short), foo(int)]` puts `foo(int)` before `Foo(int)`, so the program promises no stability there.
- MethodOrder.SortMethodsAdjacent: describes the insertion sort on every input. When two names, or two same-named declarations' parameter type names at one position, differ only in case, TimSort can return a different list, and the model promises nothing about the order of neighbours in that list.
- The comparator reads a method declaration through `MethodOrder.MethodSig`: whether it is a constructor, its name, and the simple names of its parameter types. Those are not stored in the tree model.
- SourceNames.SourceFileName: `File.separatorChar` is a parameter.
- `subList` views are modelled as windows (offset and size) into the Block's list. Java's concurrent-modification checks on stale views are left out.
- Expressions.VariableElement: a null expression, or a parenthesized expression with no inner expression, makes `getVariableElement` dereference null. The precondition excludes such inputs; `Expressions.ExecutableElement` likewise takes a non-null expression.
