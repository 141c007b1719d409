/**
  An abstraction of the parsed syntax tree the visitors walk.  Parsing, node identity and
  source positions belong to the parser; here a node is identified by a `NodeId`, a position
  is a natural number, and only the node shapes the visitors look at are spelled out.
 */
module SyntaxTree {
  import opened Wrappers

  /** Identity of a syntax node: two closure literals are "the same" iff their ids are equal. */
  type NodeId = nat

  /** A subtree down to its tokens: what token flattening works on. */
  datatype Syntax = Token(text: string) | Node(children: seq<Syntax>)

  /** The kind of a node as seen by a search along parent links. */
  datatype NodeKind =
    | FunctionDeclKind
    | ClosureExprKind
    | FunctionCallExprKind
    | MemberBlockItemKind
    | OtherKind

  /** Expressions, as far as the retention classifier inspects them. */
  datatype Expr =
    | IdentifierExpr(name: string)
    | MemberAccessExpr(base: Option<Expr>, member: string)      // `base.member`, or `.member` with no base
    | FunctionCallExpr(call: FunctionCall)
    | SpecializeExpr(expression: Expr, genericArguments: Syntax) // `expression<...>`
    | ClosureLiteral(id: NodeId, text: Syntax)
    | AssignmentExpr                                             // the `=` of an infix sequence
    | OtherExpr(text: Syntax)

  /** A call: its callee, its parenthesised argument clause (kept as text) and a trailing closure. */
  datatype FunctionCall = FunctionCall(callee: Expr, arguments: Syntax, trailingClosure: Option<Expr>)

  /** The syntax subtree an expression is parsed from (the source order of its tokens). */
  function ExprSyntax(e: Expr): Syntax
  {
    match e
    case IdentifierExpr(n) => Node([Token(n)])
    case MemberAccessExpr(base, m) =>
      Node((if base.Some? then [ExprSyntax(base.value)] else []) + [Token("."), Token(m)])
    case FunctionCallExpr(call) =>
      Node([ExprSyntax(call.callee), call.arguments]
           + (if call.trailingClosure.Some? then [ExprSyntax(call.trailingClosure.value)] else []))
    case SpecializeExpr(inner, generics) => Node([ExprSyntax(inner), generics])
    case ClosureLiteral(_, text) => text
    case AssignmentExpr => Node([Token("=")])
    case OtherExpr(text) => text
  }

  /** Whether expression `e` is the closure literal with identity `id`. */
  predicate IsClosureNode(e: Expr, id: NodeId)
  {
    e.ClosureLiteral? && e.id == id
  }

  /** The type named by an extension. */
  datatype TypeSyntax = SimpleTypeIdentifier(name: string) | OtherType(text: string)

  /** A function parameter `firstName secondName: type`. */
  datatype FunctionParameter = FunctionParameter(firstName: string, secondName: Option<string>, typeText: string)

  datatype FunctionDeclSyntax = FunctionDeclSyntax(
    id: NodeId,
    name: string,
    signatureText: string,
    parameters: seq<FunctionParameter>,
    modifiers: seq<string>)

  /** One entry of a closure capture list, `[specifier expression]`. */
  datatype CaptureItem = CaptureItem(specifier: Option<string>, expression: Expr)

  /** A parenthesised closure parameter `firstName: type`. */
  datatype ClosureParameter = ClosureParameter(firstName: string, typeText: Option<string>)

  /** What follows the capture list in a closure signature. */
  datatype ClosureInput =
    | ParameterClause(parameters: seq<ClosureParameter>) // `(a: Int, b) in`
    | ShorthandParameters(names: seq<string>)           // `a, b in`
    | NoInput

  datatype ClosureSignature = ClosureSignature(capture: Option<seq<CaptureItem>>, input: ClosureInput)

  /** Where a closure literal sits: the shape of its parent node (and, for arguments, of the node owning the argument list). */
  datatype ClosureParent =
    | ExprListParent(elements: seq<Expr>)                   // an operand of an infix sequence such as `a.b = { ... }`
    | CallParent(call: FunctionCall)                        // the callee or the trailing closure of `call`
    | ArgumentParent(owner: Option<FunctionCall>)           // an argument; `owner` is the call owning the argument list, if any
    | AdditionalTrailingParent(owner: Option<FunctionCall>) // a labelled extra trailing closure; `owner` is the call, if any
    | OtherParent

  datatype ClosureSyntax = ClosureSyntax(
    node: NodeId,
    position: nat,
    signature: Option<ClosureSignature>,
    parent: ClosureParent)

  datatype Pattern = IdentifierPattern(name: string) | OtherPattern

  datatype PatternBinding = PatternBinding(pattern: Pattern, typeAnnotation: Option<string>, initializer: Option<Expr>)

  datatype VariableDeclSyntax = VariableDeclSyntax(
    id: NodeId,
    position: nat,
    parentKind: Option<NodeKind>,
    modifiers: seq<string>,
    bindings: seq<PatternBinding>)

  /** The nodes whose visit or visitPost the visitors override. */
  datatype SyntaxNode =
    | SourceFile(id: NodeId)
    | ClassDecl(id: NodeId, name: string)
    | StructDecl(id: NodeId, name: string)
    | EnumDecl(id: NodeId, name: string)
    | ExtensionDecl(id: NodeId, extendedType: TypeSyntax)
    | FunctionDecl(functionDecl: FunctionDeclSyntax)
    | ClosureExpr(closure: ClosureSyntax)
    | CodeBlock(id: NodeId)
    | VariableDecl(variableDecl: VariableDeclSyntax)
    | OptionalBindingCondition(id: NodeId, pattern: Pattern)
    | Identifier(text: string)

  /**
    One visited node with the visited nodes below it, in source order.  A walk calls `visit`
    on the node, walks the children, then calls `visitPost` on the node; nodes no visitor
    overrides are left out of the tree.
   */
  datatype WalkTree = WalkTree(node: SyntaxNode, children: seq<WalkTree>)

  /** Nodes that open a lexical scope (and whose visitPost closes it). */
  predicate OpensScope(n: SyntaxNode)
  {
    n.SourceFile? || n.ClassDecl? || n.StructDecl? || n.EnumDecl? || n.ExtensionDecl?
    || n.FunctionDecl? || n.ClosureExpr? || n.CodeBlock?
  }
}
