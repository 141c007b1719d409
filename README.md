# Retain-cycle and lazy-property lint rules, modelled in Dafny

This project models the "ZM" custom rules of a SwiftLint fork. Four pieces of code are
modelled:

- **The lexical-environment builder.** `ZMFileContextVisitor` walks a Swift file and builds a
  tree of scopes: the file root, types, extensions, functions, closures and code blocks. Each
  scope lists the variables and functions declared in it.
- **The block-cycle rule.** `ZMBlockCycleReferenceRule` records, for every closure literal, the
  identifiers it uses without declaring them. These are its *undeclared captures*. When the
  closure is left, the rule decides whether the object the closure is stored into or handed to
  may retain it in a cycle. If so, it reports the closure's position.
- **The syntax helpers.** `ZMSwiftSyntaxTool` flattens a subtree to its token text and finds
  the nearest enclosing function declaration or closure.
- **The lazy-property rule.** `ZMLazyViewRule` reports a stored member property initialised
  by calling a closure in place, unless it is `lazy` or `static`.

Files:

| file | contents |
|---|---|
| `wrappers.dfy` | `Option` |
| `syntax_tree.dfy` | the slice of the Swift syntax tree the visitors inspect, and a walk tree of visit events |
| `syntax_tool.dfy` | `syntaxStr` and the ancestor search |
| `file_context.dfy` | the scope arena, the builder's pure step functions, and the builder class |
| `capture_resolver.dfy` | the outward searches for variables and functions |
| `block_cycle.dfy` | the retention classifier, the rule's pure step functions, and the rule's visitor class |
| `lazy_view.dfy` | the lazy-property rule |
| `scenarios.dfy` | the block-cycle rule run over whole example files |

The scope tree is an arena `seq<Scope>`. A scope refers to its parent and children by index,
and a parent always has a smaller index than its child, so every outward search terminates.

Each visitor is a class whose fields the methods update in place:
`FileContext.FileContextVisitor`, `BlockCycle.Visitor` and `LazyView.LazyViewVisitor`.

- Every `visit`/`visitPost` method is proved equal to a pure step function of the state before
  the call:
  - for the builder, `Entered`/`Left` over `Env`;
  - for the rule, `RuleVisited`/`RuleLeft` over `RuleState`.
- A whole walk (visit, children in order, visitPost) is `RunWalk`/`RunRule`.
- The properties of the rules are lemmas about these functions.

Variable and function kinds are the source's enumerations. Three source spellings are
corrected in the model: `capatureVariable` becomes `CaptureVariable`, `staticFiled` becomes
`StaticField`, and `gobalVariable` becomes `GlobalVariable`.

## Model

| member | source | states |
|---|---|---|
| FileContext.VariableKindIn | Source/SwiftLintBuiltInRules/Rules/ZM/ZMFileContextVisitor.swift:356-363 | a variable in a class/struct/enum/extension scope is a field (static field iff `static`); at the file root a global; elsewhere a local, each case both ways |
| FileContext.FunctionKindIn | Source/SwiftLintBuiltInRules/Rules/ZM/ZMFileContextVisitor.swift:296-304 | a function in a type or extension scope is a method (static method iff `static`); at the file root a global function; elsewhere a local function, each case both ways |
| FileContext.CaptureRecord | Source/SwiftLintBuiltInRules/Rules/ZM/ZMFileContextVisitor.swift:221-233 | a capture-list entry is a capture variable, weak iff the specifier is `weak`, unowned iff it is `unowned`, never both |
| FileContext.ClosureSeedOrder | Source/SwiftLintBuiltInRules/Rules/ZM/ZMFileContextVisitor.swift:217-254 | a closure scope starts with one capture variable per capture entry, in order, then exactly one parameter per closure parameter, neither weak nor unowned: named by the first name in a parameter clause, by the listed name in the shorthand form, none without input |
| FileContext.BindingRecords | Source/SwiftLintBuiltInRules/Rules/ZM/ZMFileContextVisitor.swift:350-369 | one record per binding at most, each with the declaration's kind, weak flag and owning scope and never unowned; exactly one per binding when every pattern is an identifier |
| FileContext.BindingRecordsOrigin | Source/SwiftLintBuiltInRules/Rules/ZM/ZMFileContextVisitor.swift:350-351 | record `j` is named by the identifier pattern of a binding before which exactly `j` records were made, so records follow binding order |
| FileContext.BindingRecordsCover | Source/SwiftLintBuiltInRules/Rules/ZM/ZMFileContextVisitor.swift:350-351 | every binding whose pattern is a plain identifier gives a record of that name |
| FileContext.SourceFileCreatesRoot | Source/SwiftLintBuiltInRules/Rules/ZM/ZMFileContextVisitor.swift:131-136 | visiting the file appends a parentless, unnamed file-root scope and makes it both the root and current |
| FileContext.EnterAppendsChild | Source/SwiftLintBuiltInRules/Rules/ZM/ZMFileContextVisitor.swift:144-168 | entering a class, struct, enum, function, closure or code block appends one scope as the last child of the current scope with that scope as parent and makes it current; only a function also adds a record to the parent |
| FileContext.EnteredMakesNoEnumScope | Source/SwiftLintBuiltInRules/Rules/ZM/ZMFileContextVisitor.swift:198-206 | an enum declaration opens a scope of kind struct, so no step creates an enum scope |
| FileContext.WalkMakesNoEnumScope | Source/SwiftLintBuiltInRules/Rules/ZM/ZMFileContextVisitor.swift:198-206 | no whole walk creates a scope of kind enum |
| FileContext.ExtensionEntered | Source/SwiftLintBuiltInRules/Rules/ZM/ZMFileContextVisitor.swift:176-190 | an extension reuses the first child of the current scope that is a type or extension scope with the same simple name; otherwise it appends a new extension scope with that name (empty for a non-simple type) |
| FileContext.FirstTypeChildIsFirst | Source/SwiftLintBuiltInRules/Rules/ZM/ZMFileContextVisitor.swift:180 | the reused scope is the earliest matching child, and there is none exactly when no child matches |
| FileContext.ExtensionsShareScope | Source/SwiftLintBuiltInRules/Rules/ZM/ZMFileContextVisitor.swift:176-195 | after walking one extension, a second extension of the same type name in the same scope is entered into the same scope and appends nothing |
| FileContext.FunctionDeclEntered | Source/SwiftLintBuiltInRules/Rules/ZM/ZMFileContextVisitor.swift:269-311 | a function opens a scope holding one parameter per parameter, named by the second name when present; the parent gains a record named `name`, with full name `name + signature`, of the kind `FunctionKindIn` gives |
| FileContext.VariableDeclEntered | Source/SwiftLintBuiltInRules/Rules/ZM/ZMFileContextVisitor.swift:334-371 | a variable declaration appends exactly `BindingRecords` of its bindings to the current scope's variables and changes no other scope; each record has the kind the scope gives, is weak iff `weak` is a modifier, never unowned; every identifier binding's name is among the appended records; without a current scope nothing happens |
| FileContext.OptionalBindingEntered | Source/SwiftLintBuiltInRules/Rules/ZM/ZMFileContextVisitor.swift:377-386 | an optional binding with an identifier pattern appends exactly one local-variable record of that name, neither weak nor unowned, to the current scope, and nothing else changes; any other pattern, or no current scope, changes nothing |
| FileContext.ScanModifiers | Source/SwiftLintBuiltInRules/Rules/ZM/ZMFileContextVisitor.swift:339-346 | the weak and static flags are set iff the modifier list contains `weak` and `static` |
| FileContext.EnteredGrows | Source/SwiftLintBuiltInRules/Rules/ZM/ZMFileContextVisitor.swift:131-386 | a visit never removes or alters a scope's kind, node, name or parent, and lists only grow |
| FileContext.WalkGrows | Source/SwiftLintBuiltInRules/Rules/ZM/ZMFileContextVisitor.swift:131-386 | the same for a whole walk |
| FileContext.EnteredCurrent | Source/SwiftLintBuiltInRules/Rules/ZM/ZMFileContextVisitor.swift:144-326 | entering a scope-introducing node makes current a new scope whose parent is the old current scope |
| FileContext.WalkRestoresCurrent | Source/SwiftLintBuiltInRules/Rules/ZM/ZMFileContextVisitor.swift:138-331 | every visitPost moves the cursor back to the parent, so a walk with no nested file leaves the current scope as it found it |
| FileContext.ClosureBodyRunsInItsScope | Source/SwiftLintBuiltInRules/Rules/ZM/ZMFileContextVisitor.swift:214-266 | while a closure's children are walked and when its visitPost runs, current is the closure's own scope, a child of the scope current at its visit |
| FileContext.FileWalk | Source/SwiftLintBuiltInRules/Rules/ZM/ZMFileContextVisitor.swift:131-141 | after a whole file the file root is a fresh parentless, unnamed root scope, and the cursor is none, because visitPost of the file moves to the root's parent |
| FileContext.WalkKeepsFileRoot | Source/SwiftLintBuiltInRules/Rules/ZM/ZMFileContextVisitor.swift:131-136 | only the file's own visit changes the recorded file root |
| FileContext.FileContextVisitor.AppendChild | Source/SwiftLintBuiltInRules/Rules/ZM/ZMFileContextVisitor.swift:144-152 | the arena after appending a child scope is `AddChild` of the arena before |
| FileContext.FileContextVisitor.VisitSourceFile | Source/SwiftLintBuiltInRules/Rules/ZM/ZMFileContextVisitor.swift:131-136 | the new state is `Entered` of the old one |
| FileContext.FileContextVisitor.VisitClassDecl | Source/SwiftLintBuiltInRules/Rules/ZM/ZMFileContextVisitor.swift:144-152 | the new state is `Entered` of the old one |
| FileContext.FileContextVisitor.VisitStructDecl | Source/SwiftLintBuiltInRules/Rules/ZM/ZMFileContextVisitor.swift:160-168 | the new state is `Entered` of the old one |
| FileContext.FileContextVisitor.VisitEnumDecl | Source/SwiftLintBuiltInRules/Rules/ZM/ZMFileContextVisitor.swift:198-206 | the new state is `Entered` of the old one |
| FileContext.FileContextVisitor.VisitExtensionDecl | Source/SwiftLintBuiltInRules/Rules/ZM/ZMFileContextVisitor.swift:176-190 | the new state is `Entered` of the old one; the loop finds the first matching child |
| FileContext.CaptureVariables | Source/SwiftLintBuiltInRules/Rules/ZM/ZMFileContextVisitor.swift:220-234 | the loop builds exactly `CaptureRecords` of the capture list, one record per entry, in order |
| FileContext.ClosureParameters | Source/SwiftLintBuiltInRules/Rules/ZM/ZMFileContextVisitor.swift:237-253 | the loops build exactly `ClosureParamRecords` of the input: one record per parameter of a clause or per shorthand name, in order, none without input |
| FileContext.FileContextVisitor.VisitClosureExpr | Source/SwiftLintBuiltInRules/Rules/ZM/ZMFileContextVisitor.swift:214-261 | the new state is `Entered` of the old one: a closure scope seeded with the capture records, then the parameter records |
| FileContext.FileContextVisitor.VisitFunctionDecl | Source/SwiftLintBuiltInRules/Rules/ZM/ZMFileContextVisitor.swift:269-311 | the new state is `Entered` of the old one |
| FileContext.FileContextVisitor.VisitCodeBlock | Source/SwiftLintBuiltInRules/Rules/ZM/ZMFileContextVisitor.swift:319-326 | the new state is `Entered` of the old one |
| FileContext.FileContextVisitor.VisitVariableDecl | Source/SwiftLintBuiltInRules/Rules/ZM/ZMFileContextVisitor.swift:334-371 | the new state is `Entered` of the old one |
| FileContext.FileContextVisitor.AppendBindings | Source/SwiftLintBuiltInRules/Rules/ZM/ZMFileContextVisitor.swift:350-369 | the loop appends to the scope exactly `BindingRecords` of the bindings, in order, one record per identifier binding |
| FileContext.FileContextVisitor.VisitOptionalBindingCondition | Source/SwiftLintBuiltInRules/Rules/ZM/ZMFileContextVisitor.swift:377-386 | the new state is `Entered` of the old one; the cursor stays, and an identifier pattern appends a local variable of that name to the current scope's list |
| FileContext.FileContextVisitor.LeaveScope | Source/SwiftLintBuiltInRules/Rules/ZM/ZMFileContextVisitor.swift:138-141 | the scopes are unchanged and the cursor moves to the current scope's parent |
| FileContext.FileContextVisitor.Visit | Source/SwiftLintBuiltInRules/Rules/ZM/ZMFileContextVisitor.swift:131-386 | dispatching a visit: the new state is `Entered` of the old one |
| FileContext.FileContextVisitor.VisitPost | Source/SwiftLintBuiltInRules/Rules/ZM/ZMFileContextVisitor.swift:138-331 | dispatching a visitPost: the new state is `Left` of the old one |
| CaptureResolver.FirstVariableNamed | Source/SwiftLintBuiltInRules/Rules/ZM/Rules/ZMBlockCycleReferenceRule.swift:152-156 | a record found has that name and is on the list; none iff no record has that name |
| CaptureResolver.FirstVariableNamedIsFirst | Source/SwiftLintBuiltInRules/Rules/ZM/Rules/ZMBlockCycleReferenceRule.swift:152-156 | the record found is the first of that name in the list: every earlier record has another name |
| CaptureResolver.FirstFunctionNamed | Source/SwiftLintBuiltInRules/Rules/ZM/Rules/ZMBlockCycleReferenceRule.swift:167-171 | a record found has that name and is on the list; none iff no record has that name |
| CaptureResolver.FirstFunctionNamedIsFirst | Source/SwiftLintBuiltInRules/Rules/ZM/Rules/ZMBlockCycleReferenceRule.swift:167-171 | the record found is the first of that name in the list: every earlier record has another name |
| CaptureResolver.FindVariableIsNearest | Source/SwiftLintBuiltInRules/Rules/ZM/Rules/ZMBlockCycleReferenceRule.swift:146-159 | the search finds nothing iff no scope from `start` outward declares the name; otherwise it returns the first variable of that name in the list of the nearest scope that declares it |
| CaptureResolver.FindFunctionIsNearest | Source/SwiftLintBuiltInRules/Rules/ZM/Rules/ZMBlockCycleReferenceRule.swift:161-174 | the same for function names and function lists: the first function of that name in the nearest declaring scope, which decides method against static method for same-named functions |
| CaptureResolver.DeclaredWithinIff | Source/SwiftLintBuiltInRules/Rules/ZM/Rules/ZMBlockCycleReferenceRule.swift:125-144 | a name counts as declared for a closure iff some scope on the outward chain declares it and no scope strictly nearer than that one is the closure's own scope |
| CaptureResolver.DeclaredWithinIsFound | Source/SwiftLintBuiltInRules/Rules/ZM/Rules/ZMBlockCycleReferenceRule.swift:125-159 | a name declared within a closure's reach also resolves by the unbounded outward search |
| CaptureResolver.OptionalBindingDeclares | Source/SwiftLintBuiltInRules/Rules/ZM/Rules/ZMBlockCycleReferenceRule.swift:125-144 | after `if let x = …` with an identifier pattern, `x` counts as declared from the scope the binding was made in, for every closure, and resolves to a variable |
| CaptureResolver.OwnDeclarationsAreDeclared | Source/SwiftLintBuiltInRules/Rules/ZM/Rules/ZMBlockCycleReferenceRule.swift:125-144 | a name on the variable list of the scope a use is in (a closure's own captures and parameters included) always counts as declared |
| BlockCycle.AssignedNameIsOriginalIdentifier | Source/SwiftLintBuiltInRules/Rules/ZM/Rules/ZMBlockCycleReferenceRule.swift:177-216 | whenever the assignment-target search finds a name, the callee search finds the same name |
| BlockCycle.UnboundIsFilter | Source/SwiftLintBuiltInRules/Rules/ZM/Rules/ZMBlockCycleReferenceRule.swift:103-112 | the names passed to the enclosing closure are exactly the nested closure's undeclared names that are not declared within the enclosing closure's reach |
| BlockCycle.ReceiverDecides | Source/SwiftLintBuiltInRules/Rules/ZM/Rules/ZMBlockCycleReferenceRule.swift:195-345 | the classifier decides by the receiver: a stored-into or called-on name is judged by the target rule; a bare function name counts iff it resolves to a method and `self` is an undeclared capture; otherwise never |
| BlockCycle.TargetRuleCases | Source/SwiftLintBuiltInRules/Rules/ZM/Rules/ZMBlockCycleReferenceRule.swift:218-231 | the target rule case by case: `self` iff `self` is undeclared; an unresolved name never; an undeclared variable always; a field iff `self` is undeclared; another variable never |
| BlockCycle.ReportNeedsUndeclaredCapture | Source/SwiftLintBuiltInRules/Rules/ZM/Rules/ZMBlockCycleReferenceRule.swift:195-345 | every report is caused by `self` or by another name that is an undeclared capture and resolves to a visible variable |
| BlockCycle.UnretainedCallSitesNotReported | Source/SwiftLintBuiltInRules/Rules/ZM/Rules/ZMBlockCycleReferenceRule.swift:237-278 | closures called in place, closures no call receives, and closures handed to allowlisted calls are never reported |
| BlockCycle.MainQueueAsyncNotReported | Source/SwiftLintBuiltInRules/Rules/ZM/Rules/ZMBlockCycleReferenceRule.swift:269-278 | a trailing closure of `DispatchQueue.main.async` is never reported, because the callee's flattened text is on the allowlist |
| BlockCycle.DeclaredNameNotRecorded | Source/SwiftLintBuiltInRules/Rules/ZM/Rules/ZMBlockCycleReferenceRule.swift:63-80 | a use of a name declared between the use and the innermost closure's scope is not recorded |
| BlockCycle.UndeclaredNameRecorded | Source/SwiftLintBuiltInRules/Rules/ZM/Rules/ZMBlockCycleReferenceRule.swift:63-80 | a use inside a closure of a name not starting with `$` and not declared between the use and the innermost closure's scope is appended to that closure's undeclared names, repeats kept, and nothing else changes |
| BlockCycle.IgnoredUseNotRecorded | Source/SwiftLintBuiltInRules/Rules/ZM/Rules/ZMBlockCycleReferenceRule.swift:63-71 | a name starting with `$`, or a use outside every closure, changes nothing |
| BlockCycle.RuleBuildsSameScopes | Source/SwiftLintBuiltInRules/Rules/ZM/Rules/ZMBlockCycleReferenceRule.swift:84-117 | the rule builds exactly the scopes the plain builder does |
| BlockCycle.RuleKeepsStack | Source/SwiftLintBuiltInRules/Rules/ZM/Rules/ZMBlockCycleReferenceRule.swift:84-117 | a walk leaves the closure stack as it found it, except for names appended to the innermost context |
| BlockCycle.ClosureJudgedByOwnContext | Source/SwiftLintBuiltInRules/Rules/ZM/Rules/ZMBlockCycleReferenceRule.swift:84-117 | when a closure's visitPost runs, the innermost context is the one its visit pushed |
| BlockCycle.ReportsComeFromClosures | Source/SwiftLintBuiltInRules/Rules/ZM/Rules/ZMBlockCycleReferenceRule.swift:90-117 | reports are only appended, at most one per closure of the walk, each at the position of a closure of the walk |
| BlockCycle.Visitor.FindVariableDecIn | Source/SwiftLintBuiltInRules/Rules/ZM/Rules/ZMBlockCycleReferenceRule.swift:125-144 | the loop's answer is `DeclaredWithin` of the current arena |
| BlockCycle.Visitor.FindVariableDecByTree | Source/SwiftLintBuiltInRules/Rules/ZM/Rules/ZMBlockCycleReferenceRule.swift:146-159 | the loop's answer is `FindVariable` |
| BlockCycle.Visitor.FindFunctionDecByTree | Source/SwiftLintBuiltInRules/Rules/ZM/Rules/ZMBlockCycleReferenceRule.swift:161-174 | the loop's answer is `FindFunction` |
| BlockCycle.Visitor.FindOriginalFunctionCallIdentifier | Source/SwiftLintBuiltInRules/Rules/ZM/Rules/ZMBlockCycleReferenceRule.swift:177-192 | the loop's answer is `OriginalIdentifier` of the callee |
| BlockCycle.Visitor.DealWithAssignmentExpr | Source/SwiftLintBuiltInRules/Rules/ZM/Rules/ZMBlockCycleReferenceRule.swift:195-232 | appends the closure's position iff `AssignmentViolation` holds; the stack is unchanged |
| BlockCycle.Visitor.DealWithFunctionCallExpr | Source/SwiftLintBuiltInRules/Rules/ZM/Rules/ZMBlockCycleReferenceRule.swift:234-345 | appends the closure's position iff `CallViolation` holds; the stack is unchanged |
| BlockCycle.Visitor.JudgeClosure | Source/SwiftLintBuiltInRules/Rules/ZM/Rules/ZMBlockCycleReferenceRule.swift:93-101 | appends the closure's position iff `ClosureViolation` holds |
| BlockCycle.Visitor.PassOnUndeclared | Source/SwiftLintBuiltInRules/Rules/ZM/Rules/ZMBlockCycleReferenceRule.swift:103-112 | appends to the enclosing context exactly the `Unbound` names, in order |
| BlockCycle.Visitor.VisitIdentifierExpr | Source/SwiftLintBuiltInRules/Rules/ZM/Rules/ZMBlockCycleReferenceRule.swift:63-80 | the new state is `RuleVisited` of the old one |
| BlockCycle.Visitor.VisitClosureExpr | Source/SwiftLintBuiltInRules/Rules/ZM/Rules/ZMBlockCycleReferenceRule.swift:84-88 | the new state is `RuleVisited` of the old one: the builder opens the scope, then a context is pushed |
| BlockCycle.Visitor.VisitPostClosureExpr | Source/SwiftLintBuiltInRules/Rules/ZM/Rules/ZMBlockCycleReferenceRule.swift:90-117 | the new state is `RuleLeft` of the old one: judge, pass names on, pop, close the scope |
| BlockCycle.Visitor.Walk | Source/SwiftLintBuiltInRules/Rules/ZM/Rules/ZMBlockCycleReferenceRule.swift:57-117 | walking a tree on the object gives `RunRule` of the old state |
| Scenarios.TriggeringExampleInClass | Source/SwiftLintBuiltInRules/Rules/ZM/Rules/ZMBlockCycleReferenceRule.swift:29-34 | the triggering example, inside a class with a `view` field, reports the closure's position |
| Scenarios.NonTriggeringExampleInClass | Source/SwiftLintBuiltInRules/Rules/ZM/Rules/ZMBlockCycleReferenceRule.swift:21-27 | the non-triggering example (`[weak self, weak view]`), in the same class, reports nothing |
| Scenarios.TriggeringExampleAtTopLevel | Source/SwiftLintBuiltInRules/Rules/ZM/Rules/ZMBlockCycleReferenceRule.swift:29-34 | the triggering snippet alone at the top level reports nothing: `view` resolves to no declaration |
| SyntaxTool.SyntaxStrIsLeafConcat | Source/SwiftLintBuiltInRules/Rules/ZM/ZMSwiftSyntaxTool.swift:36-49 | flattening a subtree is the concatenation of its token texts, left to right |
| SyntaxTool.SyntaxStrSplit | Source/SwiftLintBuiltInRules/Rules/ZM/ZMSwiftSyntaxTool.swift:36-49 | flattening distributes over splitting a node's children |
| SyntaxTool.SingleTokenStr | Source/SwiftLintBuiltInRules/Rules/ZM/ZMSwiftSyntaxTool.swift:36-49 | a node holding one token flattens to that token's text |
| SyntaxTool.MemberAccessStr | Source/SwiftLintBuiltInRules/Rules/ZM/ZMSwiftSyntaxTool.swift:36-49 | `base.member` flattens to the base's text, a dot and the member name |
| SyntaxTool.FindSuperFunctionDeclOrClosureExpr | Source/SwiftLintBuiltInRules/Rules/ZM/ZMSwiftSyntaxTool.swift:14-34 | the upward loop returns `SuperFunctionDeclOrClosure` |
| SyntaxTool.SuperIsNearestAncestor | Source/SwiftLintBuiltInRules/Rules/ZM/ZMSwiftSyntaxTool.swift:14-34 | a result is an ancestor that is a function declaration, or a closure not directly under a call, and no nearer ancestor is either |
| SyntaxTool.SuperNoneCases | Source/SwiftLintBuiltInRules/Rules/ZM/ZMSwiftSyntaxTool.swift:14-34 | no result exactly when no ancestor is a function declaration or closure, or when the nearest one is a closure directly under a call |
| LazyView.LazyViewVisitor.VisitPostVariableDecl | Source/SwiftLintBuiltInRules/Rules/ZM/Rules/ZMLazyViewRule.swift:53-92 | appends the declaration's position iff it is a member, has neither `lazy` nor `static`, and its single binding is initialised by calling a closure literal |
| LazyView.ModifiersDecide | Source/SwiftLintBuiltInRules/Rules/ZM/Rules/ZMLazyViewRule.swift:62-77 | adding `lazy` or `static` silences the rule; for a member initialised by a closure call, removing both makes it report |
| LazyView.Examples | Source/SwiftLintBuiltInRules/Rules/ZM/Rules/ZMLazyViewRule.swift:23-39 | as type members, the `lazy` example is not reported and the one without `lazy` is; outside a member block the one without `lazy` is not reported either |

## Left out

- The syntax tree is abstract. SwiftSyntax parsing, node identity, source positions, and the
  `.description` text of types and signatures are not part of this model. They appear as
  node ids, natural-number positions and given strings. The parent shape of a closure literal,
  and the parent kind of a variable declaration, are given as fields rather than read off the
  tree.
- Variable and function records drop the source's `node` field (ZMFileContextVisitor.swift:59-82
  and 100-117). Only the debug description reads it. The `Scope` datatype keeps its `node`.
- Swift compares strings by Unicode canonical equivalence: `==` on names in
  findVariableDecIn, findVariableDecByTree and findFunctionDecByTree, `contains` on the
  allowlists, and `hasPrefix("$")` (ZMBlockCycleReferenceRule.swift:70). The model's `==` and
  `"$" <= name` compare code points. Identifiers that differ only in Unicode normalisation match
  in Swift and not in the model.
- The debug description and printing at ZMFileContextVisitor.swift:84-86, 119-121 and 394-430
  are not part of this model.
- Scopes refer to each other by arena index instead of object references. Child lists, and the
  variable and function lists, are sequences that the class methods reassign.
- The closure contexts, a linked list through `superContext` (ZMBlockCycleReferenceRule.swift:44-53),
  are a sequence used as a stack with the innermost context last.
- The rule's visitor inherits from the builder in Swift. Here it holds the builder as a
  `const env` field and calls it where the source calls `super`.
- ZMForbidFloatLiteralInLayoutRule.swift is not part of this model. It parses floating-point
  literals.
- The rule registration in Exports.swift:5-14, the rule metadata and configuration
  (ZMBlockCycleReferenceRule.swift:10-41, ZMLazyViewRule.swift:11-46) and the hand-off of
  `violations` to SwiftLint's reporting are not part of this model.
- After a whole file, visitPost of the source file moves the cursor to the root's parent, so
  the current scope is none rather than the file root. The model follows the code
  (ZMFileContextVisitor.swift:138-141).
- The rule's triggering example, taken alone at the top level of a file, declares `view`
  nowhere. The code therefore reports nothing for it; `Scenarios.TriggeringExampleAtTopLevel`
  shows this. The report the example expects needs `view` to be a visible variable, as in
  `Scenarios.TriggeringExampleInClass`.
- The lazy-property examples are top-level snippets too. A top-level declaration's parent is
  not a member-block item, so the rule reports only when the snippet is a type member.
  `LazyView.Examples` states both.
