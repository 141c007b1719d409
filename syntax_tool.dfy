/**
  The two syntax helpers: token flattening of a subtree (used to match a call target such as
  `DispatchQueue.main.async` against a list of dotted names) and the search for the nearest
  enclosing function declaration or closure along parent links.
 */
module SyntaxTool {
  import opened Wrappers
  import opened SyntaxTree

  // ---------------------------------------------------------------------------------------
  // Token flattening
  // ---------------------------------------------------------------------------------------

  /**
    The text of a subtree: for each child in order, a token contributes its text and any other
    node contributes its own flattening.  A token asked directly has no children, so its
    flattening is empty.
   */
  function SyntaxStr(s: Syntax): string
    decreases s, 1
  {
    match s
    case Token(_) => ""
    case Node(children) => ChildrenStr(s, |children|)
  }

  /** The accumulated string after the first `k` children of node `s`. */
  function ChildrenStr(s: Syntax, k: nat): string
    requires s.Node? && k <= |s.children|
    decreases s, 0, k
  {
    if k == 0 then ""
    else ChildrenStr(s, k - 1) + PieceStr(s.children[k - 1])
  }

  /** What one child adds to its parent's flattening. */
  function PieceStr(c: Syntax): string
    decreases c, 2
  {
    match c
    case Token(t) => t
    case Node(_) => SyntaxStr(c)
  }

  /** Reference definition: the texts of all tokens of a subtree, left to right. */
  function Leaves(s: Syntax): seq<string>
    decreases s, 1
  {
    match s
    case Token(t) => [t]
    case Node(children) => ChildrenLeaves(s, |children|)
  }

  function ChildrenLeaves(s: Syntax, k: nat): seq<string>
    requires s.Node? && k <= |s.children|
    decreases s, 0, k
  {
    if k == 0 then [] else ChildrenLeaves(s, k - 1) + Leaves(s.children[k - 1])
  }

  /** Joins strings with nothing in between. */
  function Concat(ss: seq<string>): string
  {
    if ss == [] then "" else Concat(ss[..|ss| - 1]) + ss[|ss| - 1]
  }

  lemma {:induction false} ConcatAppend(a: seq<string>, b: seq<string>)
    ensures Concat(a + b) == Concat(a) + Concat(b)
    decreases |b|
  {
    if b == [] {
      assert a + b == a;
    } else {
      var b' := b[..|b| - 1];
      assert (a + b)[..|a + b| - 1] == a + b';
      ConcatAppend(a, b');
    }
  }

  /**
    Flattening a node is the plain concatenation of the texts of all tokens below it, in
    order, with no separator added between them.
   */
  lemma {:induction false} SyntaxStrIsLeafConcat(s: Syntax)
    requires s.Node?
    ensures SyntaxStr(s) == Concat(Leaves(s))
    decreases s, 1
  {
    ChildrenStrIsLeafConcat(s, |s.children|);
  }

  lemma {:induction false} ChildrenStrIsLeafConcat(s: Syntax, k: nat)
    requires s.Node? && k <= |s.children|
    ensures ChildrenStr(s, k) == Concat(ChildrenLeaves(s, k))
    decreases s, 0, k
  {
    if k > 0 {
      ChildrenStrIsLeafConcat(s, k - 1);
      var c := s.children[k - 1];
      ConcatAppend(ChildrenLeaves(s, k - 1), Leaves(c));
      match c
      case Token(t) =>
        assert Leaves(c) == [t];
        assert Concat([t]) == Concat([]) + t;
      case Node(_) =>
        SyntaxStrIsLeafConcat(c);
    }
  }

  /** Flattening distributes over splitting a node's children. */
  lemma {:induction false} SyntaxStrSplit(a: seq<Syntax>, b: seq<Syntax>)
    ensures SyntaxStr(Node(a + b)) == SyntaxStr(Node(a)) + SyntaxStr(Node(b))
    decreases |b|
  {
    var ab := Node(a + b);
    if b == [] {
      assert a + b == a;
    } else {
      var b' := b[..|b| - 1];
      assert (a + b)[..|a + b| - 1] == a + b';
      SyntaxStrSplit(a, b');
      ChildrenPrefix(Node(a + b), Node(a + b'), |a + b'|);
      ChildrenPrefix(Node(b), Node(b'), |b'|);
    }
  }

  /** Two nodes that agree on their first `k` children agree on the flattening of those children. */
  lemma {:induction false} ChildrenPrefix(s: Syntax, t: Syntax, k: nat)
    requires s.Node? && t.Node? && k <= |s.children| && k <= |t.children|
    requires s.children[..k] == t.children[..k]
    ensures ChildrenStr(s, k) == ChildrenStr(t, k)
    decreases k
  {
    if k > 0 {
      assert s.children[..k - 1] == s.children[..k][..k - 1];
      assert t.children[..k - 1] == t.children[..k][..k - 1];
      assert s.children[k - 1] == s.children[..k][k - 1];
      ChildrenPrefix(s, t, k - 1);
    }
  }

  /** A node without children flattens to the empty string. */
  lemma EmptyNodeStr()
    ensures SyntaxStr(Node([])) == ""
  {
  }

  /** A node holding one token flattens to exactly that token's text. */
  lemma {:induction false} SingleTokenStr(t: string)
    ensures SyntaxStr(Node([Token(t)])) == t
  {
    assert ChildrenStr(Node([Token(t)]), 1) == ChildrenStr(Node([Token(t)]), 0) + t;
  }

  /** The flattening of `base.member` is the base's flattening, a dot and the member name. */
  lemma {:induction false} MemberAccessStr(base: Expr, member: string)
    requires ExprSyntax(base).Node?
    ensures SyntaxStr(ExprSyntax(MemberAccessExpr(Some(base), member)))
         == SyntaxStr(ExprSyntax(base)) + "." + member
  {
    var b := ExprSyntax(base);
    SyntaxStrSplit([b], [Token("."), Token(member)]);
    SyntaxStrSplit([Token(".")], [Token(member)]);
    SingleTokenStr(".");
    SingleTokenStr(member);
    var one := Node([b]);
    assert ChildrenStr(one, 1) == ChildrenStr(one, 0) + PieceStr(b);
    assert [b] + [Token("."), Token(member)] == [b, Token("."), Token(member)];
    assert [Token(".")] + [Token(member)] == [Token("."), Token(member)];
  }

  /** `DispatchQueue.main.async` is produced exactly from its tokens. */
  lemma DispatchQueueMainAsyncStr()
    ensures SyntaxStr(ExprSyntax(MemberAccessExpr(Some(MemberAccessExpr(Some(IdentifierExpr("DispatchQueue")), "main")), "async")))
         == "DispatchQueue.main.async"
  {
    MemberAccessStr(MemberAccessExpr(Some(IdentifierExpr("DispatchQueue")), "main"), "async");
    MemberAccessStr(IdentifierExpr("DispatchQueue"), "main");
    SingleTokenStr("DispatchQueue");
  }

  // ---------------------------------------------------------------------------------------
  // Nearest enclosing function declaration or closure
  // ---------------------------------------------------------------------------------------

  /** A node of a parent-linked tree: its kind and the index of its parent. */
  datatype TreeNode = TreeNode(kind: NodeKind, parent: Option<nat>)

  /** Every parent link points to a node with a smaller index, so upward walks end. */
  predicate ParentLinked(t: seq<TreeNode>)
  {
    forall i :: 0 <= i < |t| && t[i].parent.Some? ==> t[i].parent.value < i
  }

  /** The nodes above `n`, nearest first, up to the root. */
  function Ancestors(t: seq<TreeNode>, n: nat): (a: seq<nat>)
    requires ParentLinked(t) && n < |t|
    ensures forall k :: 0 <= k < |a| ==> a[k] < n
    decreases n
  {
    match t[n].parent
    case None => []
    case Some(p) => [p] + Ancestors(t, p)
  }

  predicate IsFunctionOrClosure(k: NodeKind)
  {
    k == FunctionDeclKind || k == ClosureExprKind
  }

  /** The first node of `chain` that is a function declaration or a closure. */
  function FirstFunctionOrClosure(t: seq<TreeNode>, chain: seq<nat>): (r: Option<nat>)
    requires forall k :: 0 <= k < |chain| ==> chain[k] < |t|
    ensures r.Some? ==> r.value in chain && r.value < |t|
  {
    if chain == [] then None
    else if IsFunctionOrClosure(t[chain[0]].kind) then Some(chain[0])
    else FirstFunctionOrClosure(t, chain[1..])
  }

  /** Whether node `c` hangs directly under a function call. */
  predicate ParentIsCall(t: seq<TreeNode>, c: nat)
    requires ParentLinked(t) && c < |t|
  {
    t[c].parent.Some? && t[t[c].parent.value].kind == FunctionCallExprKind
  }

  /**
    The nearest ancestor that is a function declaration or a closure; none when there is no
    such ancestor or when the nearest one is a closure hanging directly under a call.
   */
  function SuperFunctionDeclOrClosure(t: seq<TreeNode>, n: nat): Option<nat>
    requires ParentLinked(t) && n < |t|
  {
    match FirstFunctionOrClosure(t, Ancestors(t, n))
    case None => None
    case Some(a) => if t[a].kind == ClosureExprKind && ParentIsCall(t, a) then None else Some(a)
  }

  /** The upward walk itself, one parent link at a time. */
  method FindSuperFunctionDeclOrClosureExpr(t: seq<TreeNode>, node: nat) returns (r: Option<nat>)
    requires ParentLinked(t) && node < |t|
    ensures r == SuperFunctionDeclOrClosure(t, node)
  {
    var current: nat := node;
    while true
      invariant current < |t|
      invariant FirstFunctionOrClosure(t, Ancestors(t, current)) == FirstFunctionOrClosure(t, Ancestors(t, node))
      decreases current
    {
      if t[current].parent.Some? {
        var parent := t[current].parent.value;
        if t[parent].kind == FunctionDeclKind {
          return Some(parent);
        } else if t[parent].kind == ClosureExprKind {
          if ParentIsCall(t, parent) {
            return None;
          }
          return Some(parent);
        }
        current := parent;
      } else {
        break;
      }
    }
    return None;
  }

  lemma {:induction false} FirstFunctionOrClosureIsFirst(t: seq<TreeNode>, chain: seq<nat>)
    requires forall k :: 0 <= k < |chain| ==> chain[k] < |t|
    ensures FirstFunctionOrClosure(t, chain).None? <==>
              forall k :: 0 <= k < |chain| ==> !IsFunctionOrClosure(t[chain[k]].kind)
    ensures FirstFunctionOrClosure(t, chain).Some? ==>
              exists k :: 0 <= k < |chain| && chain[k] == FirstFunctionOrClosure(t, chain).value
                && IsFunctionOrClosure(t[chain[k]].kind)
                && forall j :: 0 <= j < k ==> !IsFunctionOrClosure(t[chain[j]].kind)
  {
    if chain != [] && !IsFunctionOrClosure(t[chain[0]].kind) {
      var rest := chain[1..];
      FirstFunctionOrClosureIsFirst(t, rest);
      if FirstFunctionOrClosure(t, rest).Some? {
        var k :| 0 <= k < |rest| && rest[k] == FirstFunctionOrClosure(t, rest).value
                 && IsFunctionOrClosure(t[rest[k]].kind)
                 && forall j :: 0 <= j < k ==> !IsFunctionOrClosure(t[rest[j]].kind);
        assert chain[k + 1] == rest[k];
        forall j | 0 <= j < k + 1 ensures !IsFunctionOrClosure(t[chain[j]].kind) {
          if j > 0 { assert chain[j] == rest[j - 1]; }
        }
      } else {
        forall k | 0 <= k < |chain| ensures !IsFunctionOrClosure(t[chain[k]].kind) {
          if k > 0 { assert chain[k] == rest[k - 1]; }
        }
      }
    }
  }

  /**
    The search never answers the node it starts from: a result is a strict ancestor, it is a
    function declaration or a closure not hanging under a call, and no ancestor nearer to the
    node is a function declaration or a closure.
   */
  lemma SuperIsNearestAncestor(t: seq<TreeNode>, n: nat)
    requires ParentLinked(t) && n < |t|
    ensures SuperFunctionDeclOrClosure(t, n).Some? ==>
              var a := SuperFunctionDeclOrClosure(t, n).value;
              a < n
              && (t[a].kind == FunctionDeclKind || (t[a].kind == ClosureExprKind && !ParentIsCall(t, a)))
              && exists k :: 0 <= k < |Ancestors(t, n)| && Ancestors(t, n)[k] == a
                   && forall j :: 0 <= j < k ==> !IsFunctionOrClosure(t[Ancestors(t, n)[j]].kind)
  {
    FirstFunctionOrClosureIsFirst(t, Ancestors(t, n));
  }

  /** No node of `chain` is a function declaration or a closure. */
  predicate NoFunctionOrClosure(t: seq<TreeNode>, chain: seq<nat>)
    requires forall k :: 0 <= k < |chain| ==> chain[k] < |t|
  {
    forall k :: 0 <= k < |chain| ==> !IsFunctionOrClosure(t[chain[k]].kind)
  }

  /** The first function declaration or closure of `chain` is a closure hanging directly under a call. */
  predicate CalledClosureFirst(t: seq<TreeNode>, chain: seq<nat>)
    requires ParentLinked(t) && forall k :: 0 <= k < |chain| ==> chain[k] < |t|
  {
    exists k :: 0 <= k < |chain|
      && t[chain[k]].kind == ClosureExprKind && ParentIsCall(t, chain[k])
      && forall j :: 0 <= j < k ==> !IsFunctionOrClosure(t[chain[j]].kind)
  }

  /**
    No answer exactly when no ancestor is a function declaration or a closure, or when the
    nearest such ancestor is a closure hanging directly under a call (a trailing closure as
    much as an immediately invoked one).
   */
  lemma SuperNoneCases(t: seq<TreeNode>, n: nat)
    requires ParentLinked(t) && n < |t|
    ensures SuperFunctionDeclOrClosure(t, n).None? <==>
              NoFunctionOrClosure(t, Ancestors(t, n)) || CalledClosureFirst(t, Ancestors(t, n))
  {
    FirstCases(t, Ancestors(t, n));
  }

  /** How the first function declaration or closure of a chain decides the two conditions. */
  lemma FirstCases(t: seq<TreeNode>, a: seq<nat>)
    requires ParentLinked(t) && forall k :: 0 <= k < |a| ==> a[k] < |t|
    ensures FirstFunctionOrClosure(t, a).None? <==> NoFunctionOrClosure(t, a)
    ensures FirstFunctionOrClosure(t, a).Some? ==>
              var f := FirstFunctionOrClosure(t, a).value;
              (CalledClosureFirst(t, a) <==> t[f].kind == ClosureExprKind && ParentIsCall(t, f))
  {
    FirstFunctionOrClosureIsFirst(t, a);
    if FirstFunctionOrClosure(t, a).Some? {
      var k :| 0 <= k < |a| && a[k] == FirstFunctionOrClosure(t, a).value
               && IsFunctionOrClosure(t[a[k]].kind)
               && forall j :: 0 <= j < k ==> !IsFunctionOrClosure(t[a[j]].kind);
      if CalledClosureFirst(t, a) {
        var k' :| 0 <= k' < |a| && t[a[k']].kind == ClosureExprKind && ParentIsCall(t, a[k'])
                  && forall j :: 0 <= j < k' ==> !IsFunctionOrClosure(t[a[j]].kind);
        FirstIndexUnique(t, a, k, k');
      }
    }
  }

  /** Two positions of a chain that are both the first function declaration or closure are the same. */
  lemma FirstIndexUnique(t: seq<TreeNode>, a: seq<nat>, k1: nat, k2: nat)
    requires forall k :: 0 <= k < |a| ==> a[k] < |t|
    requires k1 < |a| && IsFunctionOrClosure(t[a[k1]].kind) && forall j :: 0 <= j < k1 ==> !IsFunctionOrClosure(t[a[j]].kind)
    requires k2 < |a| && IsFunctionOrClosure(t[a[k2]].kind) && forall j :: 0 <= j < k2 ==> !IsFunctionOrClosure(t[a[j]].kind)
    ensures k1 == k2
  {
  }
}
