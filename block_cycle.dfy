/**
  The block-cycle-reference rule.  Riding on the scope-tree builder, it keeps a stack of
  closure contexts; every identifier used inside a closure that is not declared between the
  use and the closure's own scope is recorded on the innermost context as an undeclared
  capture.  When a closure with undeclared captures is left, the retention classifier decides
  from the closure's position (the right-hand side of an assignment, a call argument, a
  trailing closure) whether it may be retained by the captured object, and reports the
  closure's position if so; the undeclared captures that are not declared within the
  enclosing closure either are then passed on to it.
 */
module BlockCycle {
  import opened Wrappers
  import opened SyntaxTree
  import opened SyntaxTool
  import opened FileContext
  import opened CaptureResolver

  // ---------------------------------------------------------------------------------------
  // Allowlists: calls whose closure argument runs synchronously or is not retained
  // ---------------------------------------------------------------------------------------

  const CollectionFunctionNames: seq<string> :=
    ["firstIndex", "first", "last", "lastIndex", "contains", "allSatisfy", "map", "compactMap",
     "flatMap", "reduce", "filter", "sorted", "forEach", "removeAll"]
  const SnapKitFunctionNames: seq<string> := ["makeConstraints", "remakeConstraints", "updateConstraints"]
  const UIKitFunctionNames: seq<string> := ["dismiss"]
  const IgnoredFunctionNames: seq<string> := CollectionFunctionNames + SnapKitFunctionNames + UIKitFunctionNames

  const UIViewCallExpressions: seq<string> :=
    ["UIView.animate", "UIView.animateKeyframes", "UIView.addKeyframe", "UIView.transition",
     "UIView.modifyAnimations", "UIView.performWithoutAnimation"]
  const DispatchQueueCallExpressions: seq<string> :=
    ["DispatchQueue.main.async", "DispatchQueue.main.sync", "DispatchQueue.main.asyncAfter",
     "DispatchQueue.global().asyncAfter", "DispatchQueue.global().async"]
  const IgnoredCallExpressions: seq<string> := UIViewCallExpressions + DispatchQueueCallExpressions

  const IgnoredSpecializations: seq<string> := ["TransformOf"]

  // ---------------------------------------------------------------------------------------
  // State
  // ---------------------------------------------------------------------------------------

  /** One open closure and the names used in it without a declaration within its reach. */
  datatype ClosureContext = ClosureContext(node: NodeId, undeclared: seq<string>)

  /** The rule's whole state: the builder's, the closure stack (innermost last) and the reports. */
  datatype RuleState = RuleState(env: Env, contexts: seq<ClosureContext>, violations: seq<nat>)

  function TopUndeclared(contexts: seq<ClosureContext>): seq<string>
  {
    if contexts == [] then [] else contexts[|contexts| - 1].undeclared
  }

  /** The scope enclosing the current one: where a closure being left was written. */
  function ParentScope(e: Env): (r: Option<nat>)
    requires WellFormed(e)
    ensures InArena(e.scopes, r)
  {
    if e.current.Some? then e.scopes[e.current.value].parent else None
  }

  // ---------------------------------------------------------------------------------------
  // Expressions naming the retaining object
  // ---------------------------------------------------------------------------------------

  /** The identifier an assignment target starts with, following member-access bases; "" otherwise. */
  function AssignedName(e: Expr): string
  {
    match e
    case IdentifierExpr(name) => name
    case MemberAccessExpr(base, _) => if base.Some? then AssignedName(base.value) else ""
    case _ => ""
  }

  /** The identifier a callee starts with, through member accesses, calls and specialisations. */
  function OriginalIdentifier(e: Expr): Option<string>
  {
    match e
    case MemberAccessExpr(base, _) => if base.Some? then OriginalIdentifier(base.value) else None
    case FunctionCallExpr(call) => OriginalIdentifier(call.callee)
    case SpecializeExpr(inner, _) => OriginalIdentifier(inner)
    case IdentifierExpr(name) => Some(name)
    case _ => None
  }

  /** The height of an expression along the links the two searches above follow. */
  function Depth(e: Expr): nat
  {
    match e
    case MemberAccessExpr(base, _) => if base.Some? then Depth(base.value) + 1 else 1
    case FunctionCallExpr(call) => Depth(call.callee) + 1
    case SpecializeExpr(inner, _) => Depth(inner) + 1
    case _ => 0
  }

  /** Whenever the assignment-target search finds a name, the callee search finds the same one. */
  lemma {:induction false} AssignedNameIsOriginalIdentifier(e: Expr)
    ensures AssignedName(e) != "" ==> OriginalIdentifier(e) == Some(AssignedName(e))
  {
    if e.MemberAccessExpr? && e.base.Some? {
      AssignedNameIsOriginalIdentifier(e.base.value);
    }
  }

  // ---------------------------------------------------------------------------------------
  // The retention classifier
  // ---------------------------------------------------------------------------------------

  /**
    Whether storing the closure into (or handing it to) `target` may retain it in a cycle:
    `self` when `self` is an undeclared capture; otherwise only a target resolving to a
    variable from the enclosing scope, when the target itself is an undeclared capture, or
    when it is a field and `self` is an undeclared capture.
   */
  predicate TargetRetained(scopes: seq<Scope>, outer: Option<nat>, undeclared: seq<string>, target: string)
    requires ParentsBelow(scopes) && InArena(scopes, outer)
  {
    if target == "self" then "self" in undeclared
    else
      var found := FindVariable(scopes, outer, target);
      found.Some? && (target in undeclared || (found.value.kind == Field && "self" in undeclared))
  }

  /** A closure that is an operand of `target = closure`. */
  predicate AssignmentViolation(scopes: seq<Scope>, outer: Option<nat>, undeclared: seq<string>, elements: seq<Expr>)
    requires ParentsBelow(scopes) && InArena(scopes, outer)
  {
    && |elements| == 3 && elements[1].AssignmentExpr?
    && var target := AssignedName(elements[0]);
       target != "" && TargetRetained(scopes, outer, undeclared, target)
  }

  /** `{ ... }()`: the closure is called where it is written. */
  predicate ImmediatelyInvoked(c: ClosureSyntax)
  {
    c.parent.CallParent? && IsClosureNode(c.parent.call.callee, c.node)
  }

  /** The call receiving the closure, as an argument, a trailing or an additional trailing closure. */
  function TargetCall(c: ClosureSyntax): Option<FunctionCall>
  {
    match c.parent
    case ArgumentParent(owner) => owner
    case CallParent(call) =>
      if call.trailingClosure.Some? && IsClosureNode(call.trailingClosure.value, c.node) then Some(call) else None
    case AdditionalTrailingParent(owner) => owner
    case _ => None
  }

  /** Calls on the allowlists: by member name, by the callee's text, or by a specialised type name. */
  predicate IgnoredCall(call: FunctionCall)
  {
    || (call.callee.MemberAccessExpr?
         && (call.callee.member in IgnoredFunctionNames || SyntaxStr(ExprSyntax(call.callee)) in IgnoredCallExpressions))
    || (call.callee.SpecializeExpr? && call.callee.expression.IdentifierExpr?
         && call.callee.expression.name in IgnoredSpecializations)
  }

  /** The callee with one level of generic specialisation removed. */
  function Unspecialized(e: Expr): Expr
  {
    if e.SpecializeExpr? then e.expression else e
  }

  /**
    A closure handed to a call: not when invoked in place, not without a receiving call, not
    for an allowlisted call.  A bare function name counts when it resolves to a method and
    `self` is an undeclared capture; otherwise the identifier the callee starts with is the
    target.
   */
  predicate CallViolation(scopes: seq<Scope>, outer: Option<nat>, undeclared: seq<string>, c: ClosureSyntax)
    requires ParentsBelow(scopes) && InArena(scopes, outer)
  {
    if ImmediatelyInvoked(c) then false
    else
      match TargetCall(c)
      case None => false
      case Some(call) =>
        if IgnoredCall(call) then false
        else if call.callee.IdentifierExpr? then
          var name := call.callee.name;
          var found := FindFunction(scopes, outer, name);
          name != "" && found.Some? && found.value.kind == Method && "self" in undeclared
        else
          match OriginalIdentifier(Unspecialized(call.callee))
          case None => false
          case Some(target) => target != "" && TargetRetained(scopes, outer, undeclared, target)
  }

  /** The classifier: an operand of an infix sequence is an assignment, anything else a call. */
  predicate ClosureViolation(scopes: seq<Scope>, outer: Option<nat>, undeclared: seq<string>, c: ClosureSyntax)
    requires ParentsBelow(scopes) && InArena(scopes, outer)
  {
    match c.parent
    case ExprListParent(elements) => AssignmentViolation(scopes, outer, undeclared, elements)
    case _ => CallViolation(scopes, outer, undeclared, c)
  }

  // ---------------------------------------------------------------------------------------
  // The rule's steps
  // ---------------------------------------------------------------------------------------

  /** Records a use of `name` on the innermost closure unless it is declared within that closure's reach. */
  function NoteIdentifier(st: RuleState, name: string): RuleState
    requires WellFormed(st.env)
  {
    if st.contexts == [] || "$" <= name then st
    else
      var top := st.contexts[|st.contexts| - 1];
      if DeclaredWithin(st.env.scopes, st.env.current, top.node, name) then st
      else st.(contexts := st.contexts[|st.contexts| - 1 := top.(undeclared := top.undeclared + [name])])
  }

  /** The names of `names`, in order and with repeats, that are not declared within the closure's reach. */
  function Unbound(scopes: seq<Scope>, start: Option<nat>, closure: NodeId, names: seq<string>): (r: seq<string>)
    requires ParentsBelow(scopes) && InArena(scopes, start)
    ensures |r| <= |names|
  {
    if names == [] then []
    else
      var last := names[|names| - 1];
      Unbound(scopes, start, closure, names[..|names| - 1])
      + if DeclaredWithin(scopes, start, closure, last) then [] else [last]
  }

  /** The names passed on are exactly those not declared within the enclosing closure's reach. */
  lemma {:induction false} UnboundIsFilter(scopes: seq<Scope>, start: Option<nat>, closure: NodeId, names: seq<string>)
    requires ParentsBelow(scopes) && InArena(scopes, start)
    ensures forall x :: x in Unbound(scopes, start, closure, names) <==> x in names && !DeclaredWithin(scopes, start, closure, x)
  {
    if names != [] {
      var last := names[|names| - 1];
      UnboundIsFilter(scopes, start, closure, names[..|names| - 1]);
      assert names == names[..|names| - 1] + [last];
    }
  }

  /**
    visitPost of a closure: the classifier runs while the closure's own scope is still current,
    the innermost context is popped, and its undeclared names not declared within the reach
    of the enclosing closure are appended to that closure's context.
   */
  function ClosureLeft(st: RuleState, c: ClosureSyntax): RuleState
    requires WellFormed(st.env)
  {
    RuleState(Left(st.env, ClosureExpr(c)), ClosurePopped(st), ClosureReports(st, c))
  }

  /** Whether the innermost context has undeclared names: only then is the closure judged. */
  predicate HasUndeclared(contexts: seq<ClosureContext>)
  {
    contexts != [] && contexts[|contexts| - 1].undeclared != []
  }

  /** The reports after judging closure `c` with the innermost context's undeclared names. */
  function ClosureReports(st: RuleState, c: ClosureSyntax): seq<nat>
    requires WellFormed(st.env)
  {
    if HasUndeclared(st.contexts) && ClosureViolation(st.env.scopes, ParentScope(st.env), TopUndeclared(st.contexts), c)
    then st.violations + [c.position]
    else st.violations
  }

  /** The closure stack after popping, with the undeclared names passed on to the enclosing closure. */
  function ClosurePopped(st: RuleState): seq<ClosureContext>
    requires WellFormed(st.env)
  {
    var n := |st.contexts|;
    if n == 0 then []
    else if HasUndeclared(st.contexts) && n >= 2 then
      var sup := st.contexts[n - 2];
      st.contexts[..n - 2] + [sup.(undeclared := sup.undeclared + Unbound(st.env.scopes, st.env.current, sup.node, TopUndeclared(st.contexts)))]
    else st.contexts[..n - 1]
  }

  /** The rule's visit: identifiers are noted, closures push a context, the rest goes to the builder. */
  function RuleVisited(st: RuleState, n: SyntaxNode): (r: RuleState)
    requires WellFormed(st.env)
    ensures WellFormed(r.env)
  {
    match n
    case Identifier(name) => NoteIdentifier(st, name)
    case ClosureExpr(c) => RuleState(Entered(st.env, n), st.contexts + [ClosureContext(c.node, [])], st.violations)
    case _ => st.(env := Entered(st.env, n))
  }

  function RuleLeft(st: RuleState, n: SyntaxNode): (r: RuleState)
    requires WellFormed(st.env)
    ensures WellFormed(r.env)
  {
    if n.ClosureExpr? then ClosureLeft(st, n.closure) else st.(env := Left(st.env, n))
  }

  function RunRule(st: RuleState, w: WalkTree): (r: RuleState)
    requires WellFormed(st.env)
    ensures WellFormed(r.env)
    decreases w, 1
  {
    RuleLeft(RuleChildren(RuleVisited(st, w.node), w, |w.children|), w.node)
  }

  function RuleChildren(st: RuleState, w: WalkTree, k: nat): (r: RuleState)
    requires WellFormed(st.env) && k <= |w.children|
    ensures WellFormed(r.env)
    decreases w, 0, k
  {
    if k == 0 then st else RunRule(RuleChildren(st, w, k - 1), w.children[k - 1])
  }

  /** The positions of the closures in a walk. */
  function ClosurePositions(w: WalkTree): set<nat>
    decreases w, 1
  {
    (if w.node.ClosureExpr? then {w.node.closure.position} else {}) + ChildrenClosurePositions(w, |w.children|)
  }

  function ChildrenClosurePositions(w: WalkTree, k: nat): set<nat>
    requires k <= |w.children|
    decreases w, 0, k
  {
    if k == 0 then {} else ChildrenClosurePositions(w, k - 1) + ClosurePositions(w.children[k - 1])
  }

  function ClosureCount(w: WalkTree): nat
    decreases w, 1
  {
    (if w.node.ClosureExpr? then 1 else 0) + ChildrenClosureCount(w, |w.children|)
  }

  function ChildrenClosureCount(w: WalkTree, k: nat): nat
    requires k <= |w.children|
    decreases w, 0, k
  {
    if k == 0 then 0 else ChildrenClosureCount(w, k - 1) + ClosureCount(w.children[k - 1])
  }

  // ---------------------------------------------------------------------------------------
  // Properties of the classifier
  // ---------------------------------------------------------------------------------------

  /** The receiver a closure is stored into or handed to, when the classifier looks it up as a variable. */
  function Receiver(c: ClosureSyntax): Option<string>
  {
    match c.parent
    case ExprListParent(elements) =>
      if |elements| == 3 && elements[1].AssignmentExpr? && AssignedName(elements[0]) != "" then Some(AssignedName(elements[0]))
      else None
    case _ =>
      if ImmediatelyInvoked(c) || TargetCall(c).None? then None
      else
        var call := TargetCall(c).value;
        if IgnoredCall(call) || call.callee.IdentifierExpr? then None
        else
          var t := OriginalIdentifier(Unspecialized(call.callee));
          if t.Some? && t.value != "" then t else None
  }

  /** The function name of a bare-name callee receiving the closure, when not allowlisted. */
  function CalledFunction(c: ClosureSyntax): Option<string>
  {
    if c.parent.ExprListParent? || ImmediatelyInvoked(c) || TargetCall(c).None? then None
    else
      var call := TargetCall(c).value;
      if !IgnoredCall(call) && call.callee.IdentifierExpr? && call.callee.name != "" then Some(call.callee.name) else None
  }

  /**
    The classifier decides by the receiver alone: a named receiver is judged by the target
    rule, a bare function name by whether it resolves to a method while `self` is an
    undeclared capture, and a closure with neither is never reported.
   */
  lemma ReceiverDecides(scopes: seq<Scope>, outer: Option<nat>, undeclared: seq<string>, c: ClosureSyntax)
    requires ParentsBelow(scopes) && InArena(scopes, outer)
    ensures Receiver(c).Some? ==>
              (ClosureViolation(scopes, outer, undeclared, c) <==> TargetRetained(scopes, outer, undeclared, Receiver(c).value))
    ensures CalledFunction(c).Some? ==>
              var f := FindFunction(scopes, outer, CalledFunction(c).value);
              (ClosureViolation(scopes, outer, undeclared, c) <==> f.Some? && f.value.kind == Method && "self" in undeclared)
    ensures Receiver(c).None? && CalledFunction(c).None? ==> !ClosureViolation(scopes, outer, undeclared, c)
  {
  }

  /**
    The target rule case by case: `self` is retained iff it is an undeclared capture; an
    unresolved name never is; a name that is itself an undeclared capture always is; a field
    that is not is retained iff `self` is an undeclared capture; any other variable is not.
   */
  lemma TargetRuleCases(scopes: seq<Scope>, outer: Option<nat>, undeclared: seq<string>, t: string)
    requires ParentsBelow(scopes) && InArena(scopes, outer)
    ensures t == "self" ==> (TargetRetained(scopes, outer, undeclared, t) <==> "self" in undeclared)
    ensures t != "self" && FindVariable(scopes, outer, t).None? ==> !TargetRetained(scopes, outer, undeclared, t)
    ensures FindVariable(scopes, outer, t).Some? && t in undeclared ==> TargetRetained(scopes, outer, undeclared, t)
    ensures t != "self" && t !in undeclared && FindVariable(scopes, outer, t).Some? ==>
              (TargetRetained(scopes, outer, undeclared, t) <==> FindVariable(scopes, outer, t).value.kind == Field && "self" in undeclared)
  {
  }

  /**
    Every report has a cause among the undeclared captures: `self`, or a name that resolves to
    a variable visible where the closure is written.
   */
  lemma ReportNeedsUndeclaredCapture(scopes: seq<Scope>, outer: Option<nat>, undeclared: seq<string>, c: ClosureSyntax)
    requires ParentsBelow(scopes) && InArena(scopes, outer)
    requires ClosureViolation(scopes, outer, undeclared, c)
    ensures "self" in undeclared || exists t :: t in undeclared && t != "self" && FindVariable(scopes, outer, t).Some?
  {
    ReceiverDecides(scopes, outer, undeclared, c);
    if Receiver(c).Some? {
      var t := Receiver(c).value;
      if t != "self" && t in undeclared {
        assert FindVariable(scopes, outer, t).Some?;
      }
    }
  }

  /** Closures invoked in place, closures no call receives and closures handed to allowlisted calls are never reported. */
  lemma UnretainedCallSitesNotReported(scopes: seq<Scope>, outer: Option<nat>, undeclared: seq<string>, c: ClosureSyntax)
    requires ParentsBelow(scopes) && InArena(scopes, outer)
    ensures ImmediatelyInvoked(c) ==> !ClosureViolation(scopes, outer, undeclared, c)
    ensures !c.parent.ExprListParent? && TargetCall(c).None? ==> !ClosureViolation(scopes, outer, undeclared, c)
    ensures TargetCall(c).Some? && IgnoredCall(TargetCall(c).value) ==> !ClosureViolation(scopes, outer, undeclared, c)
  {
  }

  /** `DispatchQueue.main.async`: the callee's text is on the allowlist, so its trailing closure is never reported. */
  lemma MainQueueAsyncNotReported(scopes: seq<Scope>, outer: Option<nat>, undeclared: seq<string>, c: ClosureSyntax, arguments: Syntax, text: Syntax)
    requires ParentsBelow(scopes) && InArena(scopes, outer)
    requires c.parent == CallParent(FunctionCall(
      MemberAccessExpr(Some(MemberAccessExpr(Some(IdentifierExpr("DispatchQueue")), "main")), "async"),
      arguments, Some(ClosureLiteral(c.node, text))))
    ensures !ClosureViolation(scopes, outer, undeclared, c)
  {
    DispatchQueueMainAsyncStr();
    assert IgnoredCallExpressions[6] == "DispatchQueue.main.async";
  }

  /** A name declared between the use and the innermost closure's scope (its capture list included) is never recorded. */
  lemma DeclaredNameNotRecorded(st: RuleState, name: string, j: nat)
    requires WellFormed(st.env) && st.contexts != []
    requires var c := Chain(st.env.scopes, st.env.current);
      && j < |c| && Declares(st.env.scopes[c[j]], name)
      && forall i :: 0 <= i < j ==> !IsScopeOfClosure(st.env.scopes[c[i]], st.contexts[|st.contexts| - 1].node)
    ensures NoteIdentifier(st, name) == st
  {
    DeclaredWithinIff(st.env.scopes, st.env.current, st.contexts[|st.contexts| - 1].node, name);
  }

  /**
    A use of a name not declared between the use and the innermost closure's scope, and not
    starting with `$`, is appended to that closure's undeclared names, repeats kept; nothing
    else changes.
   */
  lemma UndeclaredNameRecorded(st: RuleState, name: string)
    requires WellFormed(st.env) && st.contexts != [] && !("$" <= name)
    requires var c := Chain(st.env.scopes, st.env.current);
      forall j :: 0 <= j < |c| && Declares(st.env.scopes[c[j]], name) ==>
        exists i :: 0 <= i < j && IsScopeOfClosure(st.env.scopes[c[i]], st.contexts[|st.contexts| - 1].node)
    ensures var r := NoteIdentifier(st, name); var n := |st.contexts|;
      && r.env == st.env && r.violations == st.violations
      && |r.contexts| == n && r.contexts[..n - 1] == st.contexts[..n - 1]
      && r.contexts[n - 1].node == st.contexts[n - 1].node
      && r.contexts[n - 1].undeclared == st.contexts[n - 1].undeclared + [name]
  {
    DeclaredWithinIff(st.env.scopes, st.env.current, st.contexts[|st.contexts| - 1].node, name);
  }

  /** A name starting with `$`, or a use outside every closure, changes nothing. */
  lemma IgnoredUseNotRecorded(st: RuleState, name: string)
    requires WellFormed(st.env)
    requires st.contexts == [] || "$" <= name
    ensures NoteIdentifier(st, name) == st
  {
  }

  // ---------------------------------------------------------------------------------------
  // Properties of a whole walk
  // ---------------------------------------------------------------------------------------

  /** The rule builds exactly the scopes the plain builder does. */
  /** One more child of a walk is one more `RunRule`. */
  lemma RuleChildrenNext(st: RuleState, w: WalkTree, k: nat)
    requires WellFormed(st.env) && k < |w.children|
    ensures RuleChildren(st, w, k + 1) == RunRule(RuleChildren(st, w, k), w.children[k])
  {
  }

  /** A walk is the visit, the children in order, then the visitPost. */
  lemma RunRuleUnfold(st: RuleState, w: WalkTree)
    requires WellFormed(st.env)
    ensures RunRule(st, w) == RuleLeft(RuleChildren(RuleVisited(st, w.node), w, |w.children|), w.node)
  {
  }

  lemma {:induction false} RuleBuildsSameScopes(st: RuleState, w: WalkTree)
    requires WellFormed(st.env)
    ensures RunRule(st, w).env == RunWalk(st.env, w)
    decreases w, 1
  {
    RuleChildrenBuildSameScopes(RuleVisited(st, w.node), w, |w.children|);
  }

  lemma {:induction false} RuleChildrenBuildSameScopes(st: RuleState, w: WalkTree, k: nat)
    requires WellFormed(st.env) && k <= |w.children|
    ensures RuleChildren(st, w, k).env == RunChildren(st.env, w, k)
    decreases w, 0, k
  {
    if k > 0 {
      RuleChildrenBuildSameScopes(st, w, k - 1);
      RuleBuildsSameScopes(RuleChildren(st, w, k - 1), w.children[k - 1]);
    }
  }

  /** `b` is `a` with possibly more names recorded on the innermost context. */
  predicate StackExtends(a: seq<ClosureContext>, b: seq<ClosureContext>)
  {
    |a| == |b|
    && (|a| > 0 ==>
          a[..|a| - 1] == b[..|b| - 1] && b[|b| - 1].node == a[|a| - 1].node
          && a[|a| - 1].undeclared <= b[|b| - 1].undeclared)
  }

  lemma StackExtendsTransitive(a: seq<ClosureContext>, b: seq<ClosureContext>, c: seq<ClosureContext>)
    requires StackExtends(a, b) && StackExtends(b, c)
    ensures StackExtends(a, c)
  {
  }

  /**
    The closure stack is balanced: a walk leaves it as it found it, except that the innermost
    context may have gained undeclared names (from uses in it, or passed on from nested closures).
   */
  lemma {:induction false} RuleKeepsStack(st: RuleState, w: WalkTree)
    requires WellFormed(st.env)
    ensures StackExtends(st.contexts, RunRule(st, w).contexts)
    decreases w, 1
  {
    var s1 := RuleVisited(st, w.node);
    var mid := RuleChildren(s1, w, |w.children|);
    RuleChildrenKeepStack(s1, w, |w.children|);
    if w.node.ClosureExpr? {
      var n := |st.contexts|;
      assert mid.contexts[..n] == s1.contexts[..n] == st.contexts;
      if n > 0 {
        assert mid.contexts[..n - 1] == st.contexts[..n - 1];
        assert mid.contexts[n - 1] == st.contexts[n - 1];
      }
    } else if !w.node.Identifier? {
      StackExtendsTransitive(st.contexts, s1.contexts, mid.contexts);
    } else {
      StackExtendsTransitive(st.contexts, s1.contexts, mid.contexts);
    }
  }

  lemma {:induction false} RuleChildrenKeepStack(st: RuleState, w: WalkTree, k: nat)
    requires WellFormed(st.env) && k <= |w.children|
    ensures StackExtends(st.contexts, RuleChildren(st, w, k).contexts)
    decreases w, 0, k
  {
    if k > 0 {
      var mid := RuleChildren(st, w, k - 1);
      RuleChildrenKeepStack(st, w, k - 1);
      RuleKeepsStack(mid, w.children[k - 1]);
      StackExtendsTransitive(st.contexts, mid.contexts, RuleChildren(st, w, k).contexts);
    }
  }

  /**
    When a closure's visitPost runs, the innermost context is the one its visit pushed, so the
    classifier judges the closure by its own undeclared captures.
   */
  lemma ClosureJudgedByOwnContext(st: RuleState, w: WalkTree)
    requires WellFormed(st.env) && w.node.ClosureExpr?
    ensures var mid := RuleChildren(RuleVisited(st, w.node), w, |w.children|);
      && |mid.contexts| == |st.contexts| + 1 && mid.contexts[..|st.contexts|] == st.contexts
      && mid.contexts[|st.contexts|].node == w.node.closure.node
  {
    RuleChildrenKeepStack(RuleVisited(st, w.node), w, |w.children|);
  }

  /**
    Reports are only appended, at most one per closure of the walk, and each is the
    position of a closure of the walk.
   */
  lemma {:induction false} ReportsComeFromClosures(st: RuleState, w: WalkTree)
    requires WellFormed(st.env)
    ensures var r := RunRule(st, w);
      && st.violations <= r.violations
      && |r.violations| <= |st.violations| + ClosureCount(w)
      && forall j :: |st.violations| <= j < |r.violations| ==> r.violations[j] in ClosurePositions(w)
    decreases w, 1
  {
    var s1 := RuleVisited(st, w.node);
    ChildrenReportsComeFromClosures(s1, w, |w.children|);
  }

  lemma {:induction false} ChildrenReportsComeFromClosures(st: RuleState, w: WalkTree, k: nat)
    requires WellFormed(st.env) && k <= |w.children|
    ensures var r := RuleChildren(st, w, k);
      && st.violations <= r.violations
      && |r.violations| <= |st.violations| + ChildrenClosureCount(w, k)
      && forall j :: |st.violations| <= j < |r.violations| ==> r.violations[j] in ChildrenClosurePositions(w, k)
    decreases w, 0, k
  {
    if k > 0 {
      var mid := RuleChildren(st, w, k - 1);
      ChildrenReportsComeFromClosures(st, w, k - 1);
      ReportsComeFromClosures(mid, w.children[k - 1]);
      var r := RuleChildren(st, w, k);
      forall j | |st.violations| <= j < |r.violations|
        ensures r.violations[j] in ChildrenClosurePositions(w, k)
      {
        if j < |mid.violations| {
          assert r.violations[j] == mid.violations[j];
        }
      }
    }
  }

  // ---------------------------------------------------------------------------------------
  // The rule's visitor as an object
  // ---------------------------------------------------------------------------------------

  /** The rule's visitor: the scope builder it extends, the closure stack and the reports. */
  class Visitor {
    const env: FileContextVisitor
    var contexts: seq<ClosureContext>
    var violations: seq<nat>

    function State(): RuleState
      reads this, env
    {
      RuleState(env.Snapshot(), contexts, violations)
    }

    predicate Valid()
      reads this, env
    {
      env.Valid()
    }

    constructor ()
      ensures Valid() && fresh(env) && State() == RuleState(Env([], None, None), [], [])
    {
      env := new FileContextVisitor();
      contexts := [];
      violations := [];
    }

    /** Whether `targetIdentifier` is declared from the current scope out to the scope of `targetClosure`. */
    method FindVariableDecIn(targetClosure: NodeId, targetIdentifier: string) returns (found: bool)
      requires Valid()
      ensures found == DeclaredWithin(env.scopes, env.current, targetClosure, targetIdentifier)
    {
      var context := env.current;
      while true
        invariant InArena(env.scopes, context)
        invariant DeclaredWithin(env.scopes, context, targetClosure, targetIdentifier)
               == DeclaredWithin(env.scopes, env.current, targetClosure, targetIdentifier)
        decreases if context.Some? then context.value + 1 else 0
      {
        if context.None? {
          return false;
        }
        var scope := env.scopes[context.value];
        var i := 0;
        while i < |scope.variables|
          invariant 0 <= i <= |scope.variables|
          invariant forall k :: 0 <= k < i ==> scope.variables[k].name != targetIdentifier
        {
          if scope.variables[i].name == targetIdentifier {
            return true;
          }
          i := i + 1;
        }
        if scope.kind == ClosureType && scope.node == targetClosure {
          return false;
        }
        context := scope.parent;
      }
    }

    /** The variable `targetIdentifier` resolves to, searching outward from `start`. */
    method FindVariableDecByTree(start: Option<nat>, targetIdentifier: string) returns (r: Option<VariableRecord>)
      requires Valid() && InArena(env.scopes, start)
      ensures r == FindVariable(env.scopes, start, targetIdentifier)
    {
      var context := start;
      while true
        invariant InArena(env.scopes, context)
        invariant FindVariable(env.scopes, context, targetIdentifier) == FindVariable(env.scopes, start, targetIdentifier)
        decreases if context.Some? then context.value + 1 else 0
      {
        if context.None? {
          return None;
        }
        var scope := env.scopes[context.value];
        var i := 0;
        while i < |scope.variables|
          invariant 0 <= i <= |scope.variables|
          invariant FirstVariableNamed(scope.variables, targetIdentifier) == FirstVariableNamed(scope.variables[i..], targetIdentifier)
        {
          if scope.variables[i].name == targetIdentifier {
            return Some(scope.variables[i]);
          }
          assert scope.variables[i..][1..] == scope.variables[i + 1..];
          i := i + 1;
        }
        context := scope.parent;
      }
    }

    /** The function `targetFunctionName` resolves to, searching outward from `start`. */
    method FindFunctionDecByTree(start: Option<nat>, targetFunctionName: string) returns (r: Option<FunctionRecord>)
      requires Valid() && InArena(env.scopes, start)
      ensures r == FindFunction(env.scopes, start, targetFunctionName)
    {
      var context := start;
      while true
        invariant InArena(env.scopes, context)
        invariant FindFunction(env.scopes, context, targetFunctionName) == FindFunction(env.scopes, start, targetFunctionName)
        decreases if context.Some? then context.value + 1 else 0
      {
        if context.None? {
          return None;
        }
        var scope := env.scopes[context.value];
        var i := 0;
        while i < |scope.functions|
          invariant 0 <= i <= |scope.functions|
          invariant FirstFunctionNamed(scope.functions, targetFunctionName) == FirstFunctionNamed(scope.functions[i..], targetFunctionName)
        {
          if scope.functions[i].name == targetFunctionName {
            return Some(scope.functions[i]);
          }
          assert scope.functions[i..][1..] == scope.functions[i + 1..];
          i := i + 1;
        }
        context := scope.parent;
      }
    }

    /** The identifier a callee starts with, peeling member accesses, calls and specialisations. */
    method FindOriginalFunctionCallIdentifier(calledExpression: Option<Expr>) returns (r: Option<string>)
      ensures r == if calledExpression.Some? then OriginalIdentifier(calledExpression.value) else None
    {
      var expression := calledExpression;
      while true
        invariant (if expression.Some? then OriginalIdentifier(expression.value) else None)
               == (if calledExpression.Some? then OriginalIdentifier(calledExpression.value) else None)
        decreases if expression.Some? then Depth(expression.value) + 1 else 0
      {
        if expression.Some? && expression.value.MemberAccessExpr? {
          expression := expression.value.base;
        } else if expression.Some? && expression.value.FunctionCallExpr? {
          expression := Some(expression.value.call.callee);
        } else if expression.Some? && expression.value.SpecializeExpr? {
          expression := Some(expression.value.expression);
        } else if expression.Some? && expression.value.IdentifierExpr? {
          return Some(expression.value.name);
        } else {
          return None;
        }
      }
    }

    /** Judges a closure that is an operand of an infix sequence. */
    method DealWithAssignmentExpr(c: ClosureSyntax, elements: seq<Expr>)
      requires Valid()
      modifies this
      ensures Valid() && contexts == old(contexts)
      ensures violations == old(violations)
        + if AssignmentViolation(env.scopes, ParentScope(env.Snapshot()), TopUndeclared(contexts), elements) then [c.position] else []
    {
      if !(|elements| == 3 && elements[1].AssignmentExpr?) {
        return;
      }
      // 1. the assigned identifier
      var targetIdentifier := "";
      var loopTarget: Option<Expr> := Some(elements[0]);
      while true
        invariant targetIdentifier == ""
        invariant (if loopTarget.Some? then AssignedName(loopTarget.value) else "") == AssignedName(elements[0])
        decreases loopTarget
      {
        if loopTarget.Some? && loopTarget.value.IdentifierExpr? {
          targetIdentifier := loopTarget.value.name;
          break;
        }
        if loopTarget.Some? && loopTarget.value.MemberAccessExpr? {
          loopTarget := loopTarget.value.base;
          continue;
        }
        break;
      }
      if targetIdentifier == "" {
        return;
      }
      var undeclared := TopUndeclared(contexts);
      var outer := if env.current.Some? then env.scopes[env.current.value].parent else None;
      if targetIdentifier == "self" {
        if "self" in undeclared {
          violations := violations + [c.position];
        }
      } else {
        var variableDec := FindVariableDecByTree(outer, targetIdentifier);
        if variableDec.Some? {
          if targetIdentifier in undeclared {
            violations := violations + [c.position];
          } else if variableDec.value.kind == Field {
            if "self" in undeclared {
              violations := violations + [c.position];
            }
          }
        }
      }
    }

    /** Judges a closure in any other position: as an argument or a trailing closure of a call. */
    method DealWithFunctionCallExpr(c: ClosureSyntax)
      requires Valid()
      requires !c.parent.ExprListParent?
      modifies this
      ensures Valid() && contexts == old(contexts)
      ensures violations == old(violations)
        + if CallViolation(env.scopes, ParentScope(env.Snapshot()), TopUndeclared(contexts), c) then [c.position] else []
    {
      // 1. a closure invoked where it is written behaves like inline code
      if c.parent.CallParent? && IsClosureNode(c.parent.call.callee, c.node) {
        return;
      }
      // the call the closure is handed to
      var targetFunctionCallExpr: Option<FunctionCall> := None;
      if c.parent.ArgumentParent? && c.parent.owner.Some? {
        targetFunctionCallExpr := c.parent.owner;
      }
      if c.parent.CallParent? && c.parent.call.trailingClosure.Some?
         && IsClosureNode(c.parent.call.trailingClosure.value, c.node) {
        targetFunctionCallExpr := Some(c.parent.call);
      }
      if c.parent.AdditionalTrailingParent? && c.parent.owner.Some? {
        targetFunctionCallExpr := c.parent.owner;
      }
      assert targetFunctionCallExpr == TargetCall(c);
      // 2. calls that run the closure synchronously or do not keep it
      if targetFunctionCallExpr.Some? {
        var calledExpression := targetFunctionCallExpr.value.callee;
        if calledExpression.MemberAccessExpr? {
          var memberAccessStr := SyntaxStr(ExprSyntax(calledExpression));
          if calledExpression.member in IgnoredFunctionNames {
            return;
          }
          if memberAccessStr in IgnoredCallExpressions {
            return;
          }
        }
        if calledExpression.SpecializeExpr? && calledExpression.expression.IdentifierExpr?
           && calledExpression.expression.name in IgnoredSpecializations {
          return;
        }
      }
      var targetIdentifier: Option<string> := None;
      var functionName: Option<string> := None;
      var targetExpr: Option<Expr> := if targetFunctionCallExpr.Some? then Some(targetFunctionCallExpr.value.callee) else None;
      if targetExpr.Some? && targetExpr.value.SpecializeExpr? {
        targetExpr := Some(targetExpr.value.expression);
      }
      if targetFunctionCallExpr.Some? {
        if targetFunctionCallExpr.value.callee.IdentifierExpr? {
          functionName := Some(targetFunctionCallExpr.value.callee.name);
        } else {
          var identifier := FindOriginalFunctionCallIdentifier(targetExpr);
          if identifier.Some? {
            targetIdentifier := identifier;
          }
        }
      }
      var undeclared := TopUndeclared(contexts);
      var outer := if env.current.Some? then env.scopes[env.current.value].parent else None;
      if targetIdentifier.Some? {
        var target := targetIdentifier.value;
        if target == "" {
          return;
        }
        if target == "self" {
          if "self" in undeclared {
            violations := violations + [c.position];
          }
        } else {
          var variableDec := FindVariableDecByTree(outer, target);
          if variableDec.Some? {
            if target in undeclared {
              violations := violations + [c.position];
            } else if variableDec.value.kind == Field {
              if "self" in undeclared {
                violations := violations + [c.position];
              }
            }
          }
        }
      } else if functionName.Some? {
        var name := functionName.value;
        if name == "" {
          return;
        }
        var funcDec := FindFunctionDecByTree(outer, name);
        if funcDec.None? {
          return;
        }
        if funcDec.value.kind == Method {
          if "self" in undeclared {
            violations := violations + [c.position];
          }
        }
      }
    }

    /** visit of an identifier: records it on the innermost closure unless declared within its reach. */
    method VisitIdentifierExpr(name: string)
      requires Valid()
      modifies this
      ensures Valid() && State() == RuleVisited(old(State()), Identifier(name))
    {
      if contexts == [] {
        return;
      }
      if "$" <= name {
        return;
      }
      var top := contexts[|contexts| - 1];
      var hasDeclare := FindVariableDecIn(top.node, name);
      if !hasDeclare {
        contexts := contexts[|contexts| - 1 := top.(undeclared := top.undeclared + [name])];
      }
    }

    /** visit of a closure: the builder opens its scope, then a context is pushed for it. */
    method VisitClosureExpr(c: ClosureSyntax)
      requires Valid()
      modifies this, env
      ensures Valid() && State() == RuleVisited(old(State()), ClosureExpr(c))
    {
      env.VisitClosureExpr(c);
      contexts := contexts + [ClosureContext(c.node, [])];
    }

    /** Appends to the enclosing closure's context the names not declared within its reach. */
    method PassOnUndeclared(names: seq<string>)
      requires Valid() && |contexts| >= 2
      modifies this
      ensures Valid() && violations == old(violations)
      ensures var n := |old(contexts)|; var sup := old(contexts)[n - 2];
        contexts == old(contexts)[n - 2 := sup.(undeclared := sup.undeclared + Unbound(env.scopes, env.current, sup.node, names))]
    {
      var n := |contexts|;
      var superContext := contexts[n - 2];
      var i := 0;
      assert Unbound(env.scopes, env.current, superContext.node, names[..0]) == [];
      assert superContext.(undeclared := superContext.undeclared + []) == superContext;
      while i < |names|
        invariant 0 <= i <= |names| && |contexts| == n && violations == old(violations)
        invariant contexts == old(contexts)[n - 2 := superContext.(undeclared := superContext.undeclared
                    + Unbound(env.scopes, env.current, superContext.node, names[..i]))]
      {
        var identifier := names[i];
        var hasDeclare := FindVariableDecIn(superContext.node, identifier);
        assert names[..i + 1][..i] == names[..i];
        assert Unbound(env.scopes, env.current, superContext.node, names[..i + 1])
            == Unbound(env.scopes, env.current, superContext.node, names[..i]) + if hasDeclare then [] else [identifier];
        ghost var passed := Unbound(env.scopes, env.current, superContext.node, names[..i]);
        if !hasDeclare {
          assert superContext.undeclared + passed + [identifier] == superContext.undeclared + (passed + [identifier]);
          assert contexts[n - 2] == superContext.(undeclared := superContext.undeclared + passed);
          contexts := contexts[n - 2 := contexts[n - 2].(undeclared := contexts[n - 2].undeclared + [identifier])];
          assert contexts[n - 2] == superContext.(undeclared := superContext.undeclared + (passed + [identifier]));
        } else {
          assert passed + [] == passed;
        }
        i := i + 1;
      }
      assert names[..i] == names;
    }

    /** The classifier's dispatch: an operand of an infix sequence is an assignment, anything else a call. */
    method JudgeClosure(c: ClosureSyntax)
      requires Valid()
      modifies this
      ensures Valid() && contexts == old(contexts)
      ensures violations == old(violations)
        + if ClosureViolation(env.scopes, ParentScope(env.Snapshot()), TopUndeclared(contexts), c) then [c.position] else []
    {
      match c.parent {
        case ExprListParent(elements) => DealWithAssignmentExpr(c, elements);
        case _ => DealWithFunctionCallExpr(c);
      }
    }

    /** visitPost of a closure: judge it, pass its undeclared names outward, pop it, close its scope. */
    method VisitPostClosureExpr(c: ClosureSyntax)
      requires Valid()
      modifies this, env
      ensures Valid() && State() == RuleLeft(old(State()), ClosureExpr(c))
    {
      ghost var st := State();
      if contexts != [] && contexts[|contexts| - 1].undeclared != [] {
        var top := contexts[|contexts| - 1];
        JudgeClosure(c);
        assert violations == ClosureReports(st, c);
        if |contexts| >= 2 {
          PassOnUndeclared(top.undeclared);
        }
      }
      assert violations == ClosureReports(st, c);
      if contexts != [] {
        contexts := contexts[..|contexts| - 1];
      }
      assert contexts == ClosurePopped(st);
      env.VisitPost(ClosureExpr(c));
    }

    /** Dispatches `visit(n)`: the rule's overrides, else the builder's. */
    method Visit(n: SyntaxNode)
      requires Valid()
      modifies this, env
      ensures Valid() && State() == RuleVisited(old(State()), n)
    {
      match n
      case Identifier(name) => VisitIdentifierExpr(name);
      case ClosureExpr(c) => VisitClosureExpr(c);
      case _ => env.Visit(n);
    }

    /** Dispatches `visitPost(n)`. */
    method VisitPost(n: SyntaxNode)
      requires Valid()
      modifies this, env
      ensures Valid() && State() == RuleLeft(old(State()), n)
    {
      if n.ClosureExpr? {
        VisitPostClosureExpr(n.closure);
      } else {
        env.VisitPost(n);
      }
    }

    /** Walks a tree: visit, the children in order, visitPost. */
    method Walk(w: WalkTree)
      requires Valid()
      modifies this, env
      ensures Valid() && State() == RunRule(old(State()), w)
      decreases w
    {
      ghost var start := State();
      Visit(w.node);
      ghost var entered := State();
      var i := 0;
      while i < |w.children|
        invariant 0 <= i <= |w.children| && Valid() && WellFormed(entered.env)
        invariant State() == RuleChildren(entered, w, i)
      {
        RuleChildrenNext(entered, w, i);
        Walk(w.children[i]);
        i := i + 1;
      }
      VisitPost(w.node);
      RunRuleUnfold(start, w);
    }
  }
}
