/**
  The lexical-scope tree builder.  Driven by the paired visit/visitPost events of a syntax walk,
  it gives every scope-introducing construct (file root, class, struct, enum, extension,
  function, closure, code block) a scope record with a parent link and an ordered child list,
  keeps a cursor on the current scope, and files every declared variable and function in the
  scope it is declared in.

  Scopes live in an arena: a scope is an index into `scopes`, and a parent index is always
  smaller than the index of its child, so every outward walk ends.
 */
module FileContext {
  import opened Wrappers
  import opened SyntaxTree

  datatype ScopeKind =
    | ClassType | StructType | EnumType | ClosureType | FunctionType | CodeBlockType | ExtensionType | FileRoot

  /** Scopes whose members are fields and methods. */
  predicate IsTypeScope(k: ScopeKind)
  {
    k == ClassType || k == StructType || k == EnumType || k == ExtensionType
  }

  datatype VariableKind = LocalVariable | CaptureVariable | Field | StaticField | FunctionParam | GlobalVariable

  datatype FunctionKind = GlobalFunction | LocalFunction | Method | StaticMethod

  /** A declared variable; `scope` is the arena index of the scope that owns it. */
  datatype VariableRecord = VariableRecord(
    kind: VariableKind, name: string, typeName: string, isWeak: bool, isUnowned: bool, scope: nat)

  /** A declared function; `fullName` is its name followed by its signature text. */
  datatype FunctionRecord = FunctionRecord(kind: FunctionKind, name: string, fullName: string, scope: nat)

  datatype Scope = Scope(
    kind: ScopeKind,
    node: NodeId,
    name: string,
    parent: Option<nat>,
    children: seq<nat>,
    variables: seq<VariableRecord>,
    functions: seq<FunctionRecord>)

  /** The builder's whole state: the arena, the file root and the current-scope cursor. */
  datatype Env = Env(scopes: seq<Scope>, fileRoot: Option<nat>, current: Option<nat>)

  // ---------------------------------------------------------------------------------------
  // Invariant of the arena
  // ---------------------------------------------------------------------------------------

  predicate InArena(scopes: seq<Scope>, h: Option<nat>)
  {
    h.Some? ==> h.value < |scopes|
  }

  predicate ParentsBelow(scopes: seq<Scope>)
  {
    forall i :: 0 <= i < |scopes| && scopes[i].parent.Some? ==> scopes[i].parent.value < i
  }

  /** Every scope in a child list has that scope as its parent. */
  predicate ChildrenLinked(scopes: seq<Scope>)
  {
    forall i, k :: 0 <= i < |scopes| && 0 <= k < |scopes[i].children| ==>
      scopes[i].children[k] < |scopes| && scopes[scopes[i].children[k]].parent == Some(i)
  }

  /** Every record points back to the scope whose list holds it. */
  predicate RecordsOwned(scopes: seq<Scope>)
  {
    && (forall i, k :: 0 <= i < |scopes| && 0 <= k < |scopes[i].variables| ==> scopes[i].variables[k].scope == i)
    && (forall i, k :: 0 <= i < |scopes| && 0 <= k < |scopes[i].functions| ==> scopes[i].functions[k].scope == i)
  }

  predicate WellFormed(e: Env)
  {
    ParentsBelow(e.scopes) && ChildrenLinked(e.scopes) && RecordsOwned(e.scopes)
    && InArena(e.scopes, e.fileRoot) && InArena(e.scopes, e.current)
  }

  /** `r` keeps everything `e` had: scopes keep kind, node, name and parent; lists only grow. */
  predicate ScopeGrows(s: Scope, t: Scope)
  {
    t.kind == s.kind && t.node == s.node && t.name == s.name && t.parent == s.parent
    && s.children <= t.children && s.variables <= t.variables && s.functions <= t.functions
  }

  predicate Grows(e: Env, r: Env)
  {
    |e.scopes| <= |r.scopes| && forall i :: 0 <= i < |e.scopes| ==> ScopeGrows(e.scopes[i], r.scopes[i])
  }

  lemma GrowsTransitive(a: Env, b: Env, c: Env)
    requires Grows(a, b) && Grows(b, c)
    ensures Grows(a, c)
  {
    forall i | 0 <= i < |a.scopes| ensures ScopeGrows(a.scopes[i], c.scopes[i]) {
      assert ScopeGrows(a.scopes[i], b.scopes[i]) && ScopeGrows(b.scopes[i], c.scopes[i]);
    }
  }

  // ---------------------------------------------------------------------------------------
  // Classification of declarations
  // ---------------------------------------------------------------------------------------

  /** The kind of a variable declared directly in a scope of kind `k`. */
  function VariableKindIn(k: ScopeKind, isStatic: bool): (r: VariableKind)
    ensures r == Field <==> IsTypeScope(k) && !isStatic
    ensures r == StaticField <==> IsTypeScope(k) && isStatic
    ensures r == GlobalVariable <==> k == FileRoot
    ensures r == LocalVariable <==> k in {ClosureType, FunctionType, CodeBlockType}
  {
    match k
    case ClassType | StructType | EnumType | ExtensionType => if isStatic then StaticField else Field
    case FileRoot => GlobalVariable
    case _ => LocalVariable
  }

  /** The kind of a function declared directly in a scope of kind `k`. */
  function FunctionKindIn(k: ScopeKind, isStatic: bool): (r: FunctionKind)
    ensures r == Method <==> IsTypeScope(k) && !isStatic
    ensures r == StaticMethod <==> IsTypeScope(k) && isStatic
    ensures r == GlobalFunction <==> k == FileRoot
    ensures r == LocalFunction <==> k in {ClosureType, FunctionType, CodeBlockType}
  {
    match k
    case ClassType | StructType | EnumType | ExtensionType => if isStatic then StaticMethod else Method
    case FileRoot => GlobalFunction
    case _ => LocalFunction
  }

  /** A function parameter is known by its second name when it has one, else by its first. */
  function ParameterName(p: FunctionParameter): string
  {
    if p.secondName.Some? then p.secondName.value else p.firstName
  }

  function FunctionParamRecords(ps: seq<FunctionParameter>, scope: nat): seq<VariableRecord>
  {
    seq(|ps|, i requires 0 <= i < |ps| => VariableRecord(FunctionParam, ParameterName(ps[i]), ps[i].typeText, false, false, scope))
  }

  /** A capture-list entry: named after its expression when that is a bare identifier. */
  function CaptureRecord(item: CaptureItem, scope: nat): (v: VariableRecord)
    ensures v.kind == CaptureVariable && v.scope == scope && v.typeName == ""
    ensures v.isWeak <==> item.specifier == Some("weak")
    ensures v.isUnowned <==> item.specifier == Some("unowned")
    ensures !(v.isWeak && v.isUnowned)
  {
    var name := if item.expression.IdentifierExpr? then item.expression.name else "";
    var specifierText := if item.specifier.Some? then item.specifier.value else "";
    VariableRecord(CaptureVariable, name, "", specifierText == "weak", specifierText == "unowned", scope)
  }

  function CaptureRecords(items: seq<CaptureItem>, scope: nat): seq<VariableRecord>
  {
    seq(|items|, i requires 0 <= i < |items| => CaptureRecord(items[i], scope))
  }

  function ClosureParamRecords(input: ClosureInput, scope: nat): seq<VariableRecord>
  {
    match input
    case ParameterClause(ps) =>
      seq(|ps|, i requires 0 <= i < |ps| =>
        VariableRecord(FunctionParam, ps[i].firstName, if ps[i].typeText.Some? then ps[i].typeText.value else "", false, false, scope))
    case ShorthandParameters(names) =>
      seq(|names|, i requires 0 <= i < |names| => VariableRecord(FunctionParam, names[i], "", false, false, scope))
    case NoInput => []
  }

  function CaptureItems(signature: Option<ClosureSignature>): seq<CaptureItem>
  {
    if signature.Some? && signature.value.capture.Some? then signature.value.capture.value else []
  }

  /** The variables a closure scope starts with: its capture list, then its parameters. */
  function ClosureSeed(signature: Option<ClosureSignature>, scope: nat): seq<VariableRecord>
  {
    if signature.None? then []
    else CaptureRecords(CaptureItems(signature), scope) + ClosureParamRecords(signature.value.input, scope)
  }

  /** The records a variable declaration adds: one per binding whose pattern is a plain identifier. */
  function BindingRecords(bindings: seq<PatternBinding>, kind: VariableKind, isWeak: bool, scope: nat): (r: seq<VariableRecord>)
    ensures |r| <= |bindings|
    ensures forall j :: 0 <= j < |r| ==>
              r[j].kind == kind && r[j].isWeak == isWeak && !r[j].isUnowned && r[j].scope == scope
    ensures (forall j :: 0 <= j < |bindings| ==> bindings[j].pattern.IdentifierPattern?) ==> |r| == |bindings|
  {
    if bindings == [] then []
    else
      var b := bindings[|bindings| - 1];
      BindingRecords(bindings[..|bindings| - 1], kind, isWeak, scope)
      + match b.pattern
        case IdentifierPattern(name) =>
          [VariableRecord(kind, name, if b.typeAnnotation.Some? then b.typeAnnotation.value else "", isWeak, false, scope)]
        case OtherPattern => []
  }

  /**
    The records of a variable declaration are named by its identifier patterns, in binding
    order: record `j` carries the name of the identifier pattern of some binding `i` before
    which exactly `j` records were made.
   */
  lemma {:induction false} BindingRecordsOrigin(bindings: seq<PatternBinding>, kind: VariableKind, isWeak: bool, scope: nat)
    ensures forall j :: 0 <= j < |BindingRecords(bindings, kind, isWeak, scope)| ==>
              exists i :: 0 <= i < |bindings|
                && bindings[i].pattern == IdentifierPattern(BindingRecords(bindings, kind, isWeak, scope)[j].name)
                && |BindingRecords(bindings[..i], kind, isWeak, scope)| == j
  {
    if bindings != [] {
      var n := |bindings| - 1;
      var front := BindingRecords(bindings[..n], kind, isWeak, scope);
      var r := BindingRecords(bindings, kind, isWeak, scope);
      BindingRecordsOrigin(bindings[..n], kind, isWeak, scope);
      assert front <= r;
      forall j | 0 <= j < |r|
        ensures exists i :: 0 <= i < |bindings| && bindings[i].pattern == IdentifierPattern(r[j].name)
                              && |BindingRecords(bindings[..i], kind, isWeak, scope)| == j
      {
        if j < |front| {
          var prefix := bindings[..n];
          assert front[j] == BindingRecords(prefix, kind, isWeak, scope)[j];
          var i :| 0 <= i < |prefix| && prefix[i].pattern == IdentifierPattern(BindingRecords(prefix, kind, isWeak, scope)[j].name)
                   && |BindingRecords(prefix[..i], kind, isWeak, scope)| == j;
          assert bindings[..n][..i] == bindings[..i];
          assert bindings[..n][i] == bindings[i];
          assert r[j] == front[j];
        } else {
          assert bindings[n].pattern == IdentifierPattern(r[j].name);
        }
      }
      assert r == BindingRecords(bindings, kind, isWeak, scope);
    } else {
      assert BindingRecords(bindings, kind, isWeak, scope) == [];
    }
  }

  /** Every binding whose pattern is a plain identifier gives a record of that name. */
  lemma {:induction false} BindingRecordsCover(bindings: seq<PatternBinding>, kind: VariableKind, isWeak: bool, scope: nat)
    ensures forall i :: 0 <= i < |bindings| && bindings[i].pattern.IdentifierPattern? ==>
              exists j :: 0 <= j < |BindingRecords(bindings, kind, isWeak, scope)|
                && BindingRecords(bindings, kind, isWeak, scope)[j].name == bindings[i].pattern.name
  {
    if bindings != [] {
      var n := |bindings| - 1;
      var front := BindingRecords(bindings[..n], kind, isWeak, scope);
      var r := BindingRecords(bindings, kind, isWeak, scope);
      BindingRecordsCover(bindings[..n], kind, isWeak, scope);
      assert front <= r;
      forall i | 0 <= i < |bindings| && bindings[i].pattern.IdentifierPattern?
        ensures exists j :: 0 <= j < |r| && r[j].name == bindings[i].pattern.name
      {
        if i == n {
          assert r[|front|].name == bindings[i].pattern.name;
        } else {
          assert bindings[..n][i] == bindings[i];
          var j :| 0 <= j < |front| && front[j].name == bindings[..n][i].pattern.name;
          assert r[j] == front[j];
        }
      }
      assert r == BindingRecords(bindings, kind, isWeak, scope);
    }
  }

  lemma BindingRecordsStep(bindings: seq<PatternBinding>, i: nat, kind: VariableKind, isWeak: bool, scope: nat)
    requires i < |bindings|
    ensures var b := bindings[i];
      BindingRecords(bindings[..i + 1], kind, isWeak, scope)
      == BindingRecords(bindings[..i], kind, isWeak, scope)
         + if b.pattern.IdentifierPattern? then
             [VariableRecord(kind, b.pattern.name, if b.typeAnnotation.Some? then b.typeAnnotation.value else "", isWeak, false, scope)]
           else []
  {
    assert bindings[..i + 1][..i] == bindings[..i];
  }

  /** The name an extension is filed under: the simple type name, else the empty string. */
  function ExtendedTypeName(t: TypeSyntax): string
  {
    if t.SimpleTypeIdentifier? then t.name else ""
  }

  predicate IsTypeScopeNamed(s: Scope, name: string)
  {
    s.name == name && IsTypeScope(s.kind)
  }

  /** The first scope of `children`, in list order, that is a type or extension scope named `name`. */
  function FirstTypeChild(scopes: seq<Scope>, children: seq<nat>, name: string): (r: Option<nat>)
    requires forall k :: 0 <= k < |children| ==> children[k] < |scopes|
    ensures r.Some? ==> r.value in children && r.value < |scopes| && IsTypeScopeNamed(scopes[r.value], name)
  {
    if children == [] then None
    else if IsTypeScopeNamed(scopes[children[0]], name) then Some(children[0])
    else FirstTypeChild(scopes, children[1..], name)
  }

  // ---------------------------------------------------------------------------------------
  // One step of the walk
  // ---------------------------------------------------------------------------------------

  /** Appends a new scope as the last child of the current scope and makes it current. */
  function AddChild(e: Env, kind: ScopeKind, node: NodeId, name: string, variables: seq<VariableRecord>): (r: Env)
    requires WellFormed(e) && e.current.Some?
    requires forall k :: 0 <= k < |variables| ==> variables[k].scope == |e.scopes|
    ensures WellFormed(r) && Grows(e, r)
  {
    var p := e.current.value;
    var n := |e.scopes|;
    var parent := e.scopes[p];
    var r := Env(e.scopes[p := parent.(children := parent.children + [n])] + [Scope(kind, node, name, Some(p), [], variables, [])],
                 e.fileRoot, Some(n));
    assert forall i :: 0 <= i < n && i != p ==> r.scopes[i] == e.scopes[i];
    assert ChildrenLinked(r.scopes) by {
      forall i, k | 0 <= i < |r.scopes| && 0 <= k < |r.scopes[i].children|
        ensures r.scopes[i].children[k] < |r.scopes| && r.scopes[r.scopes[i].children[k]].parent == Some(i)
      {
        if i == p && k == |parent.children| {
        } else {
          assert r.scopes[i].children[k] == e.scopes[i].children[k];
        }
      }
    }
    r
  }

  /** Appends records to the variable list of scope `i`. */
  function AddVariables(e: Env, i: nat, vs: seq<VariableRecord>): (r: Env)
    requires WellFormed(e) && i < |e.scopes|
    requires forall k :: 0 <= k < |vs| ==> vs[k].scope == i
    ensures WellFormed(r) && Grows(e, r) && r.current == e.current
  {
    e.(scopes := e.scopes[i := e.scopes[i].(variables := e.scopes[i].variables + vs)])
  }

  /** Two appends to one scope's variable list are one append of both lists. */
  lemma AddVariablesTwice(e: Env, i: nat, a: seq<VariableRecord>, b: seq<VariableRecord>)
    requires WellFormed(e) && i < |e.scopes|
    requires forall k :: 0 <= k < |a| ==> a[k].scope == i
    requires forall k :: 0 <= k < |b| ==> b[k].scope == i
    ensures AddVariables(AddVariables(e, i, a), i, b) == AddVariables(e, i, a + b)
  {
    assert e.scopes[i].variables + a + b == e.scopes[i].variables + (a + b);
  }

  /** Enters a function declaration: its parameters seed its new scope, its record goes to the parent. */
  function FunctionEntered(e: Env, d: FunctionDeclSyntax): (r: Env)
    requires WellFormed(e) && e.current.Some?
    ensures WellFormed(r) && Grows(e, r)
  {
    var p := e.current.value;
    var withScope := AddChild(e, FunctionType, d.id, d.name, FunctionParamRecords(d.parameters, |e.scopes|));
    var record := FunctionRecord(FunctionKindIn(e.scopes[p].kind, "static" in d.modifiers), d.name, d.name + d.signatureText, p);
    var parent := withScope.scopes[p];
    var r := withScope.(scopes := withScope.scopes[p := parent.(functions := parent.functions + [record])]);
    GrowsTransitive(e, withScope, r);
    r
  }

  /** The effect of `visit(n)` on the builder. */
  function Entered(e: Env, n: SyntaxNode): (r: Env)
    requires WellFormed(e)
    ensures WellFormed(r)
  {
    match n
    case SourceFile(id) =>
      var root := |e.scopes|;
      Env(e.scopes + [Scope(FileRoot, id, "", None, [], [], [])], Some(root), Some(root))
    case ClassDecl(id, name) =>
      if e.current.None? then e else AddChild(e, ClassType, id, name, [])
    case StructDecl(id, name) =>
      if e.current.None? then e else AddChild(e, StructType, id, name, [])
    case EnumDecl(id, name) =>
      // enums are filed as struct scopes
      if e.current.None? then e else AddChild(e, StructType, id, name, [])
    case ExtensionDecl(id, extendedType) =>
      if e.current.None? then e
      else
        var name := ExtendedTypeName(extendedType);
        var existing := FirstTypeChild(e.scopes, e.scopes[e.current.value].children, name);
        if existing.Some? then e.(current := existing)
        else AddChild(e, ExtensionType, id, name, [])
    case FunctionDecl(d) =>
      if e.current.None? then e else FunctionEntered(e, d)
    case ClosureExpr(c) =>
      if e.current.None? then e else AddChild(e, ClosureType, c.node, "", ClosureSeed(c.signature, |e.scopes|))
    case CodeBlock(id) =>
      if e.current.None? then e else AddChild(e, CodeBlockType, id, "", [])
    case VariableDecl(d) =>
      if e.current.None? then e
      else
        var cur := e.current.value;
        var kind := VariableKindIn(e.scopes[cur].kind, "static" in d.modifiers);
        AddVariables(e, cur, BindingRecords(d.bindings, kind, "weak" in d.modifiers, cur))
    case OptionalBindingCondition(_, pattern) =>
      if e.current.None? || !pattern.IdentifierPattern? then e
      else AddVariables(e, e.current.value, [VariableRecord(LocalVariable, pattern.name, "", false, false, e.current.value)])
    case Identifier(_) => e
  }

  /** The effect of `visitPost(n)`: a scope-introducing node moves the cursor to the parent scope. */
  function Left(e: Env, n: SyntaxNode): (r: Env)
    requires WellFormed(e)
    ensures WellFormed(r) && r.scopes == e.scopes && r.fileRoot == e.fileRoot
  {
    if OpensScope(n) then e.(current := if e.current.Some? then e.scopes[e.current.value].parent else None)
    else e
  }

  /** The builder's state after walking `w`: visit, the children in order, visitPost. */
  function RunWalk(e: Env, w: WalkTree): (r: Env)
    requires WellFormed(e)
    ensures WellFormed(r)
    decreases w, 1
  {
    Left(RunChildren(Entered(e, w.node), w, |w.children|), w.node)
  }

  /** The state after walking the first `k` children of `w`, starting from `e`. */
  function RunChildren(e: Env, w: WalkTree, k: nat): (r: Env)
    requires WellFormed(e) && k <= |w.children|
    ensures WellFormed(r)
    decreases w, 0, k
  {
    if k == 0 then e else RunWalk(RunChildren(e, w, k - 1), w.children[k - 1])
  }

  /** A walk below the file root: it holds no second source-file node. */
  predicate NoSourceFile(w: WalkTree)
    decreases w
  {
    !w.node.SourceFile? && forall k :: 0 <= k < |w.children| ==> NoSourceFile(w.children[k])
  }

  // ---------------------------------------------------------------------------------------
  // Properties of one step
  // ---------------------------------------------------------------------------------------

  /** Entering the source file creates an unnamed, parentless file-root scope and makes it both the root and current. */
  lemma SourceFileCreatesRoot(e: Env, id: NodeId)
    requires WellFormed(e)
    ensures var r := Entered(e, SourceFile(id));
      r.fileRoot == r.current == Some(|e.scopes|) && |r.scopes| == |e.scopes| + 1
      && r.scopes[|e.scopes|] == Scope(FileRoot, id, "", None, [], [], [])
      && r.scopes[..|e.scopes|] == e.scopes
  {
  }

  /** The scope kind a node other than an extension gets; an enum gets a struct scope. */
  function NewScopeKind(n: SyntaxNode): ScopeKind
    requires OpensScope(n) && !n.SourceFile? && !n.ExtensionDecl?
  {
    match n
    case ClassDecl(_, _) => ClassType
    case StructDecl(_, _) => StructType
    case EnumDecl(_, _) => StructType
    case FunctionDecl(_) => FunctionType
    case ClosureExpr(_) => ClosureType
    case CodeBlock(_) => CodeBlockType
  }

  /**
    Entering a class, struct, enum, function, closure or code block under a current scope `c`
    appends exactly one new scope, as the last child of `c`, with parent `c`, and makes it
    current; an enum's scope has kind struct.  No other scope changes except that a function's
    record joins the function list of `c`.
   */
  lemma {:induction false} EnterAppendsChild(e: Env, n: SyntaxNode)
    requires WellFormed(e) && e.current.Some?
    requires OpensScope(n) && !n.SourceFile? && !n.ExtensionDecl?
    ensures var r := Entered(e, n); var c := e.current.value; var k := |e.scopes|;
      && |r.scopes| == k + 1 && r.current == Some(k)
      && r.scopes[k].parent == Some(c) && r.scopes[k].kind == NewScopeKind(n) && r.scopes[k].children == []
      && r.scopes[c].children == e.scopes[c].children + [k]
      && (n.FunctionDecl? ==> r.scopes[c].variables == e.scopes[c].variables
                              && |r.scopes[c].functions| == |e.scopes[c].functions| + 1)
      && (!n.FunctionDecl? ==> r.scopes[c].functions == e.scopes[c].functions && r.scopes[c].variables == e.scopes[c].variables)
      && forall i :: 0 <= i < k && i != c ==> r.scopes[i] == e.scopes[i]
  {
  }

  /** Enum declarations never produce a scope of kind enum. */
  lemma EnteredMakesNoEnumScope(e: Env, n: SyntaxNode)
    requires WellFormed(e)
    ensures var r := Entered(e, n);
      Grows(e, r) && forall i :: |e.scopes| <= i < |r.scopes| ==> r.scopes[i].kind != EnumType
  {
    match n
    case SourceFile(_) =>
    case ExtensionDecl(_, _) =>
    case VariableDecl(_) =>
    case OptionalBindingCondition(_, _) =>
    case Identifier(_) =>
    case _ =>
  }

  /**
    Entering an extension under current scope `c`: when some child of `c` is a class, struct,
    enum or extension scope with the extension's simple name, the first such child (in list
    order) becomes current and nothing is appended; otherwise a new extension scope with that
    name (empty for a non-simple type) is appended to `c` and becomes current.
   */
  lemma ExtensionEntered(e: Env, id: NodeId, t: TypeSyntax)
    requires WellFormed(e) && e.current.Some?
    ensures var r := Entered(e, ExtensionDecl(id, t)); var c := e.current.value; var name := ExtendedTypeName(t);
      var existing := FirstTypeChild(e.scopes, e.scopes[c].children, name);
      && (existing.Some? ==> r.scopes == e.scopes && r.current == existing)
      && (existing.None? ==>
            && r.scopes[..|e.scopes|][c := e.scopes[c]] == e.scopes
            && r.scopes[c].children == e.scopes[c].children + [|e.scopes|]
            && r.scopes[|e.scopes|] == Scope(ExtensionType, id, name, Some(c), [], [], [])
            && r.current == Some(|e.scopes|))
  {
    var r := Entered(e, ExtensionDecl(id, t));
    var c := e.current.value;
    if FirstTypeChild(e.scopes, e.scopes[c].children, ExtendedTypeName(t)).None? {
      assert r.scopes[..|e.scopes|][c := e.scopes[c]] == e.scopes;
    }
  }

  /** The first match of `FirstTypeChild` is the earliest matching child. */
  lemma {:induction false} FirstTypeChildIsFirst(scopes: seq<Scope>, children: seq<nat>, name: string)
    requires forall k :: 0 <= k < |children| ==> children[k] < |scopes|
    ensures FirstTypeChild(scopes, children, name).None? <==>
              forall k :: 0 <= k < |children| ==> !IsTypeScopeNamed(scopes[children[k]], name)
    ensures FirstTypeChild(scopes, children, name).Some? ==>
              exists k :: 0 <= k < |children| && children[k] == FirstTypeChild(scopes, children, name).value
                && forall j :: 0 <= j < k ==> !IsTypeScopeNamed(scopes[children[j]], name)
  {
    if children != [] && !IsTypeScopeNamed(scopes[children[0]], name) {
      var rest := children[1..];
      FirstTypeChildIsFirst(scopes, rest, name);
      if FirstTypeChild(scopes, rest, name).Some? {
        var k :| 0 <= k < |rest| && rest[k] == FirstTypeChild(scopes, rest, name).value
                 && forall j :: 0 <= j < k ==> !IsTypeScopeNamed(scopes[rest[j]], name);
        assert children[k + 1] == rest[k];
        forall j | 0 <= j < k + 1 ensures !IsTypeScopeNamed(scopes[children[j]], name) {
          if j > 0 { assert children[j] == rest[j - 1]; }
        }
      } else {
        forall k | 0 <= k < |children| ensures !IsTypeScopeNamed(scopes[children[k]], name) {
          if k > 0 { assert children[k] == rest[k - 1]; }
        }
      }
    }
  }

  /**
    The first match survives appending children and changing scopes in ways that keep the
    names and kinds of the listed children; with no match, appending one matching child makes
    it the first match.
   */
  lemma {:induction false} FirstTypeChildExtended(s1: seq<Scope>, c1: seq<nat>, s2: seq<Scope>, c2: seq<nat>, name: string)
    requires forall k :: 0 <= k < |c1| ==> c1[k] < |s1|
    requires forall k :: 0 <= k < |c2| ==> c2[k] < |s2|
    requires c1 <= c2
    requires forall k :: 0 <= k < |c1| ==> IsTypeScopeNamed(s1[c1[k]], name) == IsTypeScopeNamed(s2[c1[k]], name)
    ensures FirstTypeChild(s1, c1, name).Some? ==> FirstTypeChild(s2, c2, name) == FirstTypeChild(s1, c1, name)
    ensures FirstTypeChild(s1, c1, name).None? && |c2| == |c1| + 1 && IsTypeScopeNamed(s2[c2[|c1|]], name) ==>
              FirstTypeChild(s2, c2, name) == Some(c2[|c1|])
  {
    if c1 != [] {
      assert c2[0] == c1[0];
      FirstTypeChildExtended(s1, c1[1..], s2, c2[1..], name);
    } else if |c2| == 1 {
      assert c2[1..] == [];
    }
  }

  // ---------------------------------------------------------------------------------------
  // Properties of a whole walk
  // ---------------------------------------------------------------------------------------

  lemma EnteredGrows(e: Env, n: SyntaxNode)
    requires WellFormed(e)
    ensures Grows(e, Entered(e, n))
  {
    EnteredMakesNoEnumScope(e, n);
  }

  /** Walking only ever appends: no scope loses a child, a record, its kind, name or parent. */
  lemma {:induction false} WalkGrows(e: Env, w: WalkTree)
    requires WellFormed(e)
    ensures Grows(e, RunWalk(e, w))
    decreases w, 1
  {
    var e1 := Entered(e, w.node);
    EnteredGrows(e, w.node);
    ChildrenGrow(e1, w, |w.children|);
    GrowsTransitive(e, e1, RunChildren(e1, w, |w.children|));
  }

  lemma {:induction false} ChildrenGrow(e: Env, w: WalkTree, k: nat)
    requires WellFormed(e) && k <= |w.children|
    ensures Grows(e, RunChildren(e, w, k))
    decreases w, 0, k
  {
    if k > 0 {
      var mid := RunChildren(e, w, k - 1);
      ChildrenGrow(e, w, k - 1);
      WalkGrows(mid, w.children[k - 1]);
      GrowsTransitive(e, mid, RunChildren(e, w, k));
    }
  }

  /** No walk creates a scope of kind enum. */
  lemma {:induction false} WalkMakesNoEnumScope(e: Env, w: WalkTree)
    requires WellFormed(e)
    ensures forall i :: |e.scopes| <= i < |RunWalk(e, w).scopes| ==> RunWalk(e, w).scopes[i].kind != EnumType
    decreases w, 1
  {
    var e1 := Entered(e, w.node);
    EnteredMakesNoEnumScope(e, w.node);
    ChildrenMakeNoEnumScope(e1, w, |w.children|);
    ChildrenGrow(e1, w, |w.children|);
  }

  lemma {:induction false} ChildrenMakeNoEnumScope(e: Env, w: WalkTree, k: nat)
    requires WellFormed(e) && k <= |w.children|
    ensures forall i :: |e.scopes| <= i < |RunChildren(e, w, k).scopes| ==> RunChildren(e, w, k).scopes[i].kind != EnumType
    decreases w, 0, k
  {
    if k > 0 {
      var mid := RunChildren(e, w, k - 1);
      ChildrenMakeNoEnumScope(e, w, k - 1);
      WalkMakesNoEnumScope(mid, w.children[k - 1]);
      WalkGrows(mid, w.children[k - 1]);
    }
  }

  /** Entering a scope-introducing node under scope `c` makes current a scope whose parent is `c`. */
  lemma EnteredCurrent(e: Env, n: SyntaxNode)
    requires WellFormed(e) && !n.SourceFile?
    ensures var r := Entered(e, n);
      && (OpensScope(n) && e.current.Some? ==>
            r.current.Some? && r.current.value < |r.scopes| && r.scopes[r.current.value].parent == e.current)
      && (OpensScope(n) && e.current.None? ==> r.current.None?)
      && (!OpensScope(n) ==> r.current == e.current)
  {
    if n.ExtensionDecl? && e.current.Some? {
      var c := e.current.value;
      var existing := FirstTypeChild(e.scopes, e.scopes[c].children, ExtendedTypeName(n.extendedType));
      if existing.Some? {
        var j :| 0 <= j < |e.scopes[c].children| && e.scopes[c].children[j] == existing.value;
      }
    }
  }

  /**
    A balanced walk restores the current scope: visitPost of every scope-introducing node
    moves the cursor back to the scope that was current at its visit, also when an extension
    reused an existing scope.
   */
  lemma {:induction false} WalkRestoresCurrent(e: Env, w: WalkTree)
    requires WellFormed(e) && NoSourceFile(w)
    ensures RunWalk(e, w).current == e.current
    decreases w, 1
  {
    var e1 := Entered(e, w.node);
    var body := RunChildren(e1, w, |w.children|);
    EnteredCurrent(e, w.node);
    ChildrenRestoreCurrent(e1, w, |w.children|);
    ChildrenGrow(e1, w, |w.children|);
    if OpensScope(w.node) && e.current.Some? {
      assert body.scopes[e1.current.value] .parent == e1.scopes[e1.current.value].parent;
    }
  }

  lemma {:induction false} ChildrenRestoreCurrent(e: Env, w: WalkTree, k: nat)
    requires WellFormed(e) && k <= |w.children| && NoSourceFile(w)
    ensures RunChildren(e, w, k).current == e.current
    decreases w, 0, k
  {
    if k > 0 {
      ChildrenRestoreCurrent(e, w, k - 1);
      WalkRestoresCurrent(RunChildren(e, w, k - 1), w.children[k - 1]);
    }
  }

  /**
    While a closure's children are walked and when its visitPost runs, the current scope is the
    closure's own new scope, a child of the scope current at the closure's visit.
   */
  lemma ClosureBodyRunsInItsScope(e: Env, w: WalkTree)
    requires WellFormed(e) && e.current.Some? && w.node.ClosureExpr? && NoSourceFile(w)
    ensures var body := RunChildren(Entered(e, w.node), w, |w.children|); var k := |e.scopes|;
      && body.current == Some(k) && k < |body.scopes|
      && body.scopes[k].kind == ClosureType && body.scopes[k].node == w.node.closure.node
      && body.scopes[k].parent == e.current
  {
    var e1 := Entered(e, w.node);
    EnterAppendsChild(e, w.node);
    ChildrenRestoreCurrent(e1, w, |w.children|);
    ChildrenGrow(e1, w, |w.children|);
    assert ScopeGrows(e1.scopes[|e.scopes|], RunChildren(e1, w, |w.children|).scopes[|e.scopes|]);
  }

  /**
    Extensions of one type name in one scope share a single scope: after walking the first
    extension, entering the second makes current the scope the first one used, and appends
    nothing.
   */
  lemma ExtensionsShareScope(e: Env, w1: WalkTree, n2: SyntaxNode)
    requires WellFormed(e) && e.current.Some? && NoSourceFile(w1)
    requires w1.node.ExtensionDecl? && n2.ExtensionDecl?
    requires ExtendedTypeName(w1.node.extendedType) == ExtendedTypeName(n2.extendedType)
    ensures Entered(RunWalk(e, w1), n2).current == Entered(e, w1.node).current
    ensures Entered(RunWalk(e, w1), n2).scopes == RunWalk(e, w1).scopes
  {
    var c := e.current.value;
    var name := ExtendedTypeName(n2.extendedType);
    var e1 := Entered(e, w1.node);
    EnteredExtensionIsFirst(e, w1.node);
    WalkRestoresCurrent(e, w1);
    WalkGrows(e, w1);
    var body := RunChildren(e1, w1, |w1.children|);
    ChildrenGrow(e1, w1, |w1.children|);
    assert RunWalk(e, w1).scopes == body.scopes;
    GrowsTransitive(e, e1, body);
    FirstTypeChildSurvives(e1, RunWalk(e, w1), c, name);
  }

  /** After entering an extension, the scope made current is the first matching child of the scope it was entered from. */
  lemma EnteredExtensionIsFirst(e: Env, n: SyntaxNode)
    requires WellFormed(e) && e.current.Some? && n.ExtensionDecl?
    ensures var e1 := Entered(e, n); var c := e.current.value;
      && e1.current.Some? && c < |e1.scopes|
      && FirstTypeChild(e1.scopes, e1.scopes[c].children, ExtendedTypeName(n.extendedType)) == e1.current
  {
    var c := e.current.value;
    var name := ExtendedTypeName(n.extendedType);
    var e1 := Entered(e, n);
    ExtensionEntered(e, n.id, n.extendedType);
    EnteredGrows(e, n);
    if FirstTypeChild(e.scopes, e.scopes[c].children, name).None? {
      FirstTypeChildExtended(e.scopes, e.scopes[c].children, e1.scopes, e1.scopes[c].children, name);
    }
  }

  /** Growth keeps the first matching child of a scope first: earlier children keep their kind and name. */
  lemma FirstTypeChildSurvives(e1: Env, e2: Env, c: nat, name: string)
    requires WellFormed(e1) && WellFormed(e2) && Grows(e1, e2) && c < |e1.scopes|
    requires FirstTypeChild(e1.scopes, e1.scopes[c].children, name).Some?
    ensures FirstTypeChild(e2.scopes, e2.scopes[c].children, name) == FirstTypeChild(e1.scopes, e1.scopes[c].children, name)
  {
    assert ScopeGrows(e1.scopes[c], e2.scopes[c]);
    forall j | 0 <= j < |e1.scopes[c].children|
      ensures IsTypeScopeNamed(e1.scopes[e1.scopes[c].children[j]], name)
           == IsTypeScopeNamed(e2.scopes[e1.scopes[c].children[j]], name)
    {
      assert ScopeGrows(e1.scopes[e1.scopes[c].children[j]], e2.scopes[e1.scopes[c].children[j]]);
    }
    FirstTypeChildExtended(e1.scopes, e1.scopes[c].children, e2.scopes, e2.scopes[c].children, name);
  }

  /**
    Walking a whole file from any state: the file root is a fresh parentless, unnamed scope
    of kind file root, and visitPost of the file moves the cursor to the root's parent, none.
   */
  lemma FileWalk(e: Env, w: WalkTree)
    requires WellFormed(e) && w.node.SourceFile?
    requires forall k :: 0 <= k < |w.children| ==> NoSourceFile(w.children[k])
    ensures var r := RunWalk(e, w); var root := |e.scopes|;
      && r.current.None? && r.fileRoot == Some(root) && root < |r.scopes|
      && r.scopes[root].kind == FileRoot && r.scopes[root].name == "" && r.scopes[root].parent.None?
  {
    var e1 := Entered(e, w.node);
    RootChildrenKeepRoot(e1, w, |w.children|);
    ChildrenGrow(e1, w, |w.children|);
    assert ScopeGrows(e1.scopes[|e.scopes|], RunChildren(e1, w, |w.children|).scopes[|e.scopes|]);
  }

  lemma {:induction false} RootChildrenKeepRoot(e: Env, w: WalkTree, k: nat)
    requires WellFormed(e) && k <= |w.children|
    requires forall j :: 0 <= j < |w.children| ==> NoSourceFile(w.children[j])
    ensures RunChildren(e, w, k).current == e.current && RunChildren(e, w, k).fileRoot == e.fileRoot
    decreases k
  {
    if k > 0 {
      RootChildrenKeepRoot(e, w, k - 1);
      WalkRestoresCurrent(RunChildren(e, w, k - 1), w.children[k - 1]);
      WalkKeepsFileRoot(RunChildren(e, w, k - 1), w.children[k - 1]);
    }
  }

  lemma {:induction false} WalkKeepsFileRoot(e: Env, w: WalkTree)
    requires WellFormed(e) && NoSourceFile(w)
    ensures RunWalk(e, w).fileRoot == e.fileRoot
    decreases w, 1
  {
    ChildrenKeepFileRoot(Entered(e, w.node), w, |w.children|);
  }

  lemma {:induction false} ChildrenKeepFileRoot(e: Env, w: WalkTree, k: nat)
    requires WellFormed(e) && k <= |w.children| && NoSourceFile(w)
    ensures RunChildren(e, w, k).fileRoot == e.fileRoot
    decreases w, 0, k
  {
    if k > 0 {
      ChildrenKeepFileRoot(e, w, k - 1);
      WalkKeepsFileRoot(RunChildren(e, w, k - 1), w.children[k - 1]);
    }
  }

  /**
    A closure scope starts with one capture variable per capture-list entry, in order (weak
    iff the specifier is `weak`, unowned iff it is `unowned`, never both), followed by one
    parameter per closure parameter: named by its first name in a parameter clause, by the
    listed name in the shorthand form, and none without an input clause or signature.
   */
  lemma ClosureSeedOrder(signature: Option<ClosureSignature>, scope: nat)
    ensures var seed := ClosureSeed(signature, scope); var items := CaptureItems(signature);
      && |items| <= |seed|
      && (signature.None? || signature.value.input.NoInput? ==> |seed| == |items|)
      && (signature.Some? && signature.value.input.ParameterClause? ==>
            var ps := signature.value.input.parameters;
            |seed| == |items| + |ps| && forall j :: 0 <= j < |ps| ==> seed[|items| + j].name == ps[j].firstName)
      && (signature.Some? && signature.value.input.ShorthandParameters? ==>
            var names := signature.value.input.names;
            |seed| == |items| + |names| && forall j :: 0 <= j < |names| ==> seed[|items| + j].name == names[j])
      && (forall j :: 0 <= j < |items| ==>
            && seed[j].kind == CaptureVariable && seed[j] == CaptureRecord(items[j], scope)
            && (seed[j].isWeak <==> items[j].specifier == Some("weak"))
            && (seed[j].isUnowned <==> items[j].specifier == Some("unowned"))
            && !(seed[j].isWeak && seed[j].isUnowned))
      && (forall j :: |items| <= j < |seed| ==> seed[j].kind == FunctionParam && !seed[j].isWeak && !seed[j].isUnowned)
  {
  }

  /**
    A function declaration under current scope `c`: its new scope holds one parameter record
    per parameter, named by the second name when present, and `c` gains the function's record,
    a method or static method in a type scope, a global function at the file root, a local
    function elsewhere.
   */
  lemma FunctionDeclEntered(e: Env, d: FunctionDeclSyntax)
    requires WellFormed(e) && e.current.Some?
    ensures var r := Entered(e, FunctionDecl(d)); var c := e.current.value; var k := |e.scopes|;
      && |r.scopes| == k + 1 && r.current == Some(k)
      && |r.scopes[k].variables| == |d.parameters|
      && (forall j :: 0 <= j < |d.parameters| ==>
            r.scopes[k].variables[j].kind == FunctionParam
            && r.scopes[k].variables[j].name == (if d.parameters[j].secondName.Some? then d.parameters[j].secondName.value else d.parameters[j].firstName))
      && r.scopes[c].functions == e.scopes[c].functions + [FunctionRecord(FunctionKindIn(e.scopes[c].kind, "static" in d.modifiers), d.name, d.name + d.signatureText, c)]
      && (IsTypeScope(e.scopes[c].kind) ==> Last(r.scopes[c].functions).kind in {Method, StaticMethod})
  {
  }

  function Last<T>(s: seq<T>): T
    requires s != []
  {
    s[|s| - 1]
  }

  /**
    A variable declaration appends to the current scope one record per plain-identifier
    binding: a field or static field in a type scope, a global at the file root, a local
    elsewhere; weak iff the declaration has a `weak` modifier; never unowned.  Without a
    current scope nothing is recorded.
   */
  lemma VariableDeclEntered(e: Env, d: VariableDeclSyntax)
    requires WellFormed(e)
    ensures var r := Entered(e, VariableDecl(d));
      && (e.current.None? ==> r == e)
      && (e.current.Some? ==>
            var c := e.current.value;
            && |r.scopes| == |e.scopes| && r.current == e.current
            && r.scopes[c].variables
               == e.scopes[c].variables + BindingRecords(d.bindings, VariableKindIn(e.scopes[c].kind, "static" in d.modifiers), "weak" in d.modifiers, c)
            && (forall i :: 0 <= i < |e.scopes| && i != c ==> r.scopes[i] == e.scopes[i])
            && (forall j :: |e.scopes[c].variables| <= j < |r.scopes[c].variables| ==>
                 var v := r.scopes[c].variables[j];
                 && v.kind == VariableKindIn(e.scopes[c].kind, "static" in d.modifiers)
                 && v.isWeak == ("weak" in d.modifiers) && !v.isUnowned)
            && forall i :: 0 <= i < |d.bindings| && d.bindings[i].pattern.IdentifierPattern? ==>
                 exists j :: |e.scopes[c].variables| <= j < |r.scopes[c].variables|
                   && r.scopes[c].variables[j].name == d.bindings[i].pattern.name)
  {
    if e.current.Some? {
      var c := e.current.value;
      var kind := VariableKindIn(e.scopes[c].kind, "static" in d.modifiers);
      var added := BindingRecords(d.bindings, kind, "weak" in d.modifiers, c);
      var r := Entered(e, VariableDecl(d));
      var before := e.scopes[c].variables;
      assert r.scopes[c].variables == before + added;
      forall j | |before| <= j < |r.scopes[c].variables|
        ensures r.scopes[c].variables[j] == added[j - |before|]
      {
      }
      BindingRecordsCover(d.bindings, kind, "weak" in d.modifiers, c);
      forall i | 0 <= i < |d.bindings| && d.bindings[i].pattern.IdentifierPattern?
        ensures exists j :: |before| <= j < |r.scopes[c].variables| && r.scopes[c].variables[j].name == d.bindings[i].pattern.name
      {
        var j :| 0 <= j < |added| && added[j].name == d.bindings[i].pattern.name;
        assert r.scopes[c].variables[|before| + j] == added[j];
      }
    }
  }

  /**
    An optional binding `if let x = …` under current scope `c` whose pattern is a plain
    identifier appends exactly one record to `c`: a local variable named `x`, neither weak
    nor unowned, untyped.  No other scope, list or cursor changes, and any other pattern, or
    no current scope, changes nothing.
   */
  lemma OptionalBindingEntered(e: Env, id: NodeId, pattern: Pattern)
    requires WellFormed(e)
    ensures var r := Entered(e, OptionalBindingCondition(id, pattern));
      && (e.current.None? || pattern.OtherPattern? ==> r == e)
      && (e.current.Some? && pattern.IdentifierPattern? ==>
            var c := e.current.value;
            && |r.scopes| == |e.scopes| && r.current == e.current && r.fileRoot == e.fileRoot
            && |r.scopes[c].variables| == |e.scopes[c].variables| + 1
            && r.scopes[c].variables[..|e.scopes[c].variables|] == e.scopes[c].variables
            && Last(r.scopes[c].variables).kind == LocalVariable
            && Last(r.scopes[c].variables).name == pattern.name
            && !Last(r.scopes[c].variables).isWeak && !Last(r.scopes[c].variables).isUnowned
            && r.scopes[c].children == e.scopes[c].children && r.scopes[c].functions == e.scopes[c].functions
            && forall i :: 0 <= i < |e.scopes| && i != c ==> r.scopes[i] == e.scopes[i])
  {
  }

  // ---------------------------------------------------------------------------------------
  // The builder as an object
  // ---------------------------------------------------------------------------------------

  /** `Entered` for a variable declaration, on its own. */
  lemma EnteredVariableDecl(e: Env, d: VariableDeclSyntax)
    requires WellFormed(e) && e.current.Some?
    ensures var c := e.current.value;
      Entered(e, VariableDecl(d))
      == AddVariables(e, c, BindingRecords(d.bindings, VariableKindIn(e.scopes[c].kind, "static" in d.modifiers), "weak" in d.modifiers, c))
  {
  }

  /** Scans a declaration's modifier list for `weak` and `static`. */
  method ScanModifiers(modifiers: seq<string>) returns (isWeak: bool, isStatic: bool)
    ensures isWeak <==> "weak" in modifiers
    ensures isStatic <==> "static" in modifiers
  {
    isWeak, isStatic := false, false;
    var i := 0;
    while i < |modifiers|
      invariant 0 <= i <= |modifiers|
      invariant isWeak <==> "weak" in modifiers[..i]
      invariant isStatic <==> "static" in modifiers[..i]
    {
      if modifiers[i] == "weak" {
        isWeak := true;
      }
      if modifiers[i] == "static" {
        isStatic := true;
      }
      assert modifiers[..i + 1] == modifiers[..i] + [modifiers[i]];
      i := i + 1;
    }
    assert modifiers[..i] == modifiers;
  }

  /** The capture variables of a closure scope: one record per capture-list entry, in order. */
  method CaptureVariables(items: seq<CaptureItem>, index: nat) returns (captures: seq<VariableRecord>)
    ensures captures == CaptureRecords(items, index)
  {
    captures := [];
    var i := 0;
    while i < |items|
      invariant 0 <= i <= |items| && |captures| == i
      invariant forall j :: 0 <= j < i ==> captures[j] == CaptureRecord(items[j], index)
    {
      var item := items[i];
      var name := if item.expression.IdentifierExpr? then item.expression.name else "";
      var isWeak := false;
      var isUnowned := false;
      var specifierText := if item.specifier.Some? then item.specifier.value else "";
      if specifierText == "weak" {
        isWeak := true;
      }
      if specifierText == "unowned" {
        isUnowned := true;
      }
      captures := captures + [VariableRecord(CaptureVariable, name, "", isWeak, isUnowned, index)];
      i := i + 1;
    }
  }

  /** The parameter records of a closure scope: a parenthesised clause or the shorthand names, in order. */
  method ClosureParameters(input: ClosureInput, index: nat) returns (params: seq<VariableRecord>)
    ensures params == ClosureParamRecords(input, index)
  {
    params := [];
    match input
    case ParameterClause(ps) =>
      var i := 0;
      while i < |ps|
        invariant 0 <= i <= |ps| && |params| == i
        invariant forall j :: 0 <= j < i ==> params[j] == ClosureParamRecords(input, index)[j]
      {
        var typeText := if ps[i].typeText.Some? then ps[i].typeText.value else "";
        params := params + [VariableRecord(FunctionParam, ps[i].firstName, typeText, false, false, index)];
        i := i + 1;
      }
    case ShorthandParameters(names) =>
      var i := 0;
      while i < |names|
        invariant 0 <= i <= |names| && |params| == i
        invariant forall j :: 0 <= j < i ==> params[j] == ClosureParamRecords(input, index)[j]
      {
        params := params + [VariableRecord(FunctionParam, names[i], "", false, false, index)];
        i := i + 1;
      }
    case NoInput =>
  }

  /** The visitor's state updated in place: every method does what `Entered`/`Left` describe. */
  class FileContextVisitor {
    var scopes: seq<Scope>
    var fileRoot: Option<nat>
    var current: Option<nat>

    function Snapshot(): Env
      reads this
    {
      Env(scopes, fileRoot, current)
    }

    predicate Valid()
      reads this
    {
      WellFormed(Snapshot())
    }

    constructor ()
      ensures Valid() && Snapshot() == Env([], None, None)
    {
      scopes := [];
      fileRoot := None;
      current := None;
    }

    /** Appends a scope under the current one and makes it current. */
    method AppendChild(kind: ScopeKind, node: NodeId, name: string, variables: seq<VariableRecord>)
      requires Valid() && current.Some?
      requires forall k :: 0 <= k < |variables| ==> variables[k].scope == |scopes|
      modifies this
      ensures Valid() && Snapshot() == AddChild(old(Snapshot()), kind, node, name, variables)
    {
      var parent := current.value;
      var index := |scopes|;
      var context := Scope(kind, node, name, Some(parent), [], variables, []);
      scopes := scopes[parent := scopes[parent].(children := scopes[parent].children + [index])] + [context];
      current := Some(index);
    }

    method VisitSourceFile(id: NodeId)
      requires Valid()
      modifies this
      ensures Valid() && Snapshot() == Entered(old(Snapshot()), SourceFile(id))
    {
      var index := |scopes|;
      scopes := scopes + [Scope(FileRoot, id, "", None, [], [], [])];
      fileRoot := Some(index);
      current := Some(index);
    }

    method VisitClassDecl(id: NodeId, name: string)
      requires Valid()
      modifies this
      ensures Valid() && Snapshot() == Entered(old(Snapshot()), ClassDecl(id, name))
    {
      if current.Some? {
        AppendChild(ClassType, id, name, []);
      }
    }

    method VisitStructDecl(id: NodeId, name: string)
      requires Valid()
      modifies this
      ensures Valid() && Snapshot() == Entered(old(Snapshot()), StructDecl(id, name))
    {
      if current.Some? {
        AppendChild(StructType, id, name, []);
      }
    }

    method VisitEnumDecl(id: NodeId, name: string)
      requires Valid()
      modifies this
      ensures Valid() && Snapshot() == Entered(old(Snapshot()), EnumDecl(id, name))
    {
      if current.Some? {
        AppendChild(StructType, id, name, []);
      }
    }

    method VisitExtensionDecl(id: NodeId, extendedType: TypeSyntax)
      requires Valid()
      modifies this
      ensures Valid() && Snapshot() == Entered(old(Snapshot()), ExtensionDecl(id, extendedType))
    {
      if current.Some? {
        var parent := current.value;
        var name := if extendedType.SimpleTypeIdentifier? then extendedType.name else "";
        var children := scopes[parent].children;
        var i := 0;
        while i < |children|
          invariant 0 <= i <= |children|
          invariant FirstTypeChild(scopes, children, name) == FirstTypeChild(scopes, children[i..], name)
        {
          var candidate := scopes[children[i]];
          if candidate.name == name
             && (candidate.kind == StructType || candidate.kind == EnumType
                 || candidate.kind == ClassType || candidate.kind == ExtensionType) {
            current := Some(children[i]);
            return;
          }
          assert children[i..][1..] == children[i + 1..];
          i := i + 1;
        }
        AppendChild(ExtensionType, id, name, []);
      }
    }

    method VisitClosureExpr(c: ClosureSyntax)
      requires Valid()
      modifies this
      ensures Valid() && Snapshot() == Entered(old(Snapshot()), ClosureExpr(c))
    {
      if current.Some? {
        var index := |scopes|;
        var captures: seq<VariableRecord> := [];
        var params: seq<VariableRecord> := [];
        if c.signature.Some? {
          var signature := c.signature.value;
          if signature.capture.Some? {
            captures := CaptureVariables(signature.capture.value, index);
          }
          params := ClosureParameters(signature.input, index);
        }
        assert captures + params == ClosureSeed(c.signature, index);
        AppendChild(ClosureType, c.node, "", captures + params);
      }
    }

    method VisitFunctionDecl(d: FunctionDeclSyntax)
      requires Valid()
      modifies this
      ensures Valid() && Snapshot() == Entered(old(Snapshot()), FunctionDecl(d))
    {
      if current.Some? {
        var parent := current.value;
        var index := |scopes|;
        var params: seq<VariableRecord> := [];
        var i := 0;
        while i < |d.parameters|
          invariant 0 <= i <= |d.parameters| && |params| == i
          invariant forall j :: 0 <= j < i ==> params[j] == FunctionParamRecords(d.parameters, index)[j]
        {
          var parameter := d.parameters[i];
          var name := parameter.firstName;
          if parameter.secondName.Some? {
            name := parameter.secondName.value;
          }
          params := params + [VariableRecord(FunctionParam, name, parameter.typeText, false, false, index)];
          i := i + 1;
        }
        assert params == FunctionParamRecords(d.parameters, index);
        ghost var parentKind := scopes[parent].kind;
        AppendChild(FunctionType, d.id, d.name, params);
        assert scopes[parent].kind == parentKind;
        var _, isStatic := ScanModifiers(d.modifiers);
        var functionType := FunctionKindIn(scopes[parent].kind, isStatic);
        var record := FunctionRecord(functionType, d.name, d.name + d.signatureText, parent);
        scopes := scopes[parent := scopes[parent].(functions := scopes[parent].functions + [record])];
      }
    }

    method VisitCodeBlock(id: NodeId)
      requires Valid()
      modifies this
      ensures Valid() && Snapshot() == Entered(old(Snapshot()), CodeBlock(id))
    {
      if current.Some? {
        AppendChild(CodeBlockType, id, "", []);
      }
    }

    method VisitVariableDecl(d: VariableDeclSyntax)
      requires Valid()
      modifies this
      ensures Valid() && Snapshot() == Entered(old(Snapshot()), VariableDecl(d))
    {
      if current.Some? {
        var cur := current.value;
        var isWeak, isStatic := ScanModifiers(d.modifiers);
        var kind := VariableKindIn(scopes[cur].kind, isStatic);
        AppendBindings(cur, d.bindings, kind, isWeak);
        EnteredVariableDecl(old(Snapshot()), d);
      }
    }

    /** Appends to scope `cur` one record per binding whose pattern is a plain identifier. */
    method AppendBindings(cur: nat, bindings: seq<PatternBinding>, kind: VariableKind, isWeak: bool)
      requires Valid() && cur < |scopes|
      modifies this
      ensures Valid() && Snapshot() == AddVariables(old(Snapshot()), cur, BindingRecords(bindings, kind, isWeak, cur))
    {
      var i := 0;
      assert bindings[..0] == [];
      assert scopes[cur].variables + [] == scopes[cur].variables;
      assert scopes[cur := scopes[cur]] == scopes;
      assert Snapshot() == AddVariables(Snapshot(), cur, []);
      while i < |bindings|
        invariant 0 <= i <= |bindings|
        invariant Valid()
        invariant Snapshot() == AddVariables(old(Snapshot()), cur, BindingRecords(bindings[..i], kind, isWeak, cur))
      {
        var binding := bindings[i];
        BindingRecordsStep(bindings, i, kind, isWeak, cur);
        ghost var done := BindingRecords(bindings[..i], kind, isWeak, cur);
        if binding.pattern.IdentifierPattern? {
          var typeName := if binding.typeAnnotation.Some? then binding.typeAnnotation.value else "";
          var variable := VariableRecord(kind, binding.pattern.name, typeName, isWeak, false, cur);
          AppendVariable(cur, variable);
          AddVariablesTwice(old(Snapshot()), cur, done, [variable]);
        } else {
          assert done + [] == done;
        }
        i := i + 1;
      }
      assert bindings[..i] == bindings;
    }

    /** Appends one record to the variable list of scope `i`. */
    method AppendVariable(i: nat, v: VariableRecord)
      requires Valid() && i < |scopes| && v.scope == i
      modifies this
      ensures Valid() && Snapshot() == AddVariables(old(Snapshot()), i, [v])
    {
      scopes := scopes[i := scopes[i].(variables := scopes[i].variables + [v])];
    }

    /** `if let x = …`: a plain identifier pattern becomes a local variable of the current scope. */
    method VisitOptionalBindingCondition(id: NodeId, pattern: Pattern)
      requires Valid()
      modifies this
      ensures Valid() && Snapshot() == Entered(old(Snapshot()), OptionalBindingCondition(id, pattern))
      ensures current == old(current) && |scopes| == |old(scopes)|
      ensures old(current).Some? && pattern.IdentifierPattern? ==>
                var c := old(current).value;
                scopes[c].variables == old(scopes)[c].variables + [VariableRecord(LocalVariable, pattern.name, "", false, false, c)]
    {
      if current.Some? && pattern.IdentifierPattern? {
        var cur := current.value;
        var variable := VariableRecord(LocalVariable, pattern.name, "", false, false, cur);
        scopes := scopes[cur := scopes[cur].(variables := scopes[cur].variables + [variable])];
      }
    }

    /** The visitPost shared by every scope-introducing node: back to the parent scope. */
    method LeaveScope()
      requires Valid()
      modifies this
      ensures Valid() && scopes == old(scopes) && fileRoot == old(fileRoot)
      ensures current == if old(current).Some? then old(scopes)[old(current).value].parent else None
    {
      if current.Some? {
        current := scopes[current.value].parent;
      }
    }

    /** Dispatches `visit(n)` to the override for the node's kind. */
    method Visit(n: SyntaxNode)
      requires Valid()
      modifies this
      ensures Valid() && Snapshot() == Entered(old(Snapshot()), n)
    {
      match n
      case SourceFile(id) => VisitSourceFile(id);
      case ClassDecl(id, name) => VisitClassDecl(id, name);
      case StructDecl(id, name) => VisitStructDecl(id, name);
      case EnumDecl(id, name) => VisitEnumDecl(id, name);
      case ExtensionDecl(id, t) => VisitExtensionDecl(id, t);
      case FunctionDecl(d) => VisitFunctionDecl(d);
      case ClosureExpr(c) => VisitClosureExpr(c);
      case CodeBlock(id) => VisitCodeBlock(id);
      case VariableDecl(d) => VisitVariableDecl(d);
      case OptionalBindingCondition(id, pattern) => VisitOptionalBindingCondition(id, pattern);
      case Identifier(_) =>
    }

    /** Dispatches `visitPost(n)`; only scope-introducing nodes do anything. */
    method VisitPost(n: SyntaxNode)
      requires Valid()
      modifies this
      ensures Valid() && Snapshot() == Left(old(Snapshot()), n)
    {
      if OpensScope(n) {
        LeaveScope();
      }
    }
  }
}
