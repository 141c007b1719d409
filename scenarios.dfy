/**
  The block-cycle rule run over whole concrete files: the rule's own examples, placed inside
  a class that owns a `view` field, and the same snippet at the top level of a file.
 */
module Scenarios {
  import opened Wrappers
  import opened SyntaxTree
  import opened FileContext
  import opened CaptureResolver
  import opened BlockCycle

  /** The state a fresh visitor starts from. */
  const Start: RuleState := RuleState(Env([], None, None), [], [])

  /** `view.block = { [capture] a in view... }`, the closure literal having node id 5 at position 40. */
  function BlockAssignment(capture: seq<CaptureItem>): ClosureSyntax
  {
    ClosureSyntax(5, 40, Some(ClosureSignature(Some(capture), ShorthandParameters(["a"]))),
      ExprListParent([MemberAccessExpr(Some(IdentifierExpr("view")), "block"), AssignmentExpr, ClosureLiteral(5, Node([]))]))
  }

  /**
    The statement: the left-hand `view`, then the closure and the `view` used inside it.  The
    walk leaves out the identifier visits of the capture-list entries (`self`, and `view` when
    captured): each of them is declared in the closure's own scope by its capture record, so
    noting it changes nothing (`CaptureResolver.OwnDeclarationsAreDeclared`).
   */
  function Statement(capture: seq<CaptureItem>): seq<WalkTree>
  {
    [ WalkTree(Identifier("view"), []),
      WalkTree(ClosureExpr(BlockAssignment(capture)), [WalkTree(Identifier("view"), [])]) ]
  }

  /** `class ViewController { var view: UIView?; func setup() { <statement> } }` */
  function InClass(capture: seq<CaptureItem>): WalkTree
  {
    WalkTree(SourceFile(0), [
      WalkTree(ClassDecl(1, "ViewController"), [
        WalkTree(VariableDecl(FieldDecl), []),
        WalkTree(FunctionDecl(SetupDecl), [
          WalkTree(CodeBlock(4), Statement(capture))])])])
  }

  /** The statement alone at the top level of a file. */
  function TopLevel(capture: seq<CaptureItem>): WalkTree
  {
    WalkTree(SourceFile(0), Statement(capture))
  }

  const WeakSelf: CaptureItem := CaptureItem(Some("weak"), IdentifierExpr("self"))
  const WeakView: CaptureItem := CaptureItem(Some("weak"), IdentifierExpr("view"))

  /** Capturing only `self` weakly while the closure stored into `view` uses `view` strongly is reported. */
  lemma TriggeringExampleInClass()
    ensures RunRule(Start, InClass([WeakSelf])).violations == [40]
  {
    ClassPrefix([WeakSelf]);
    var s := RuleState(ClosureEnv([WeakSelf]), [ClosureContext(5, [])], []);
    var t := RuleState(ClosureEnv([WeakSelf]), [ClosureContext(5, ["view"])], []);
    ClosureEnvWellFormed([WeakSelf]);
    IdentifierRun(s, "view");
    NotedInClass();
    ReportedInClass();
    ClassSuffix([WeakSelf], t);
  }

  /** Capturing `view` weakly as well silences the report. */
  lemma NonTriggeringExampleInClass()
    ensures RunRule(Start, InClass([WeakSelf, WeakView])).violations == []
  {
    ClassPrefix([WeakSelf, WeakView]);
    var s := RuleState(ClosureEnv([WeakSelf, WeakView]), [ClosureContext(5, [])], []);
    ClosureEnvWellFormed([WeakSelf, WeakView]);
    IdentifierRun(s, "view");
    DeclaredInClass();
    ClassSuffix([WeakSelf, WeakView], s);
  }

  const Root1: Scope := Root.(children := [1])
  const ClassScope: Scope := Scope(ClassType, 1, "ViewController", Some(0), [], [], [])
  const ViewField: VariableRecord := VariableRecord(Field, "view", "UIView?", false, false, 1)
  const SetupRecord: FunctionRecord := FunctionRecord(Method, "setup", "setup()", 1)
  const ClassScope1: Scope := ClassScope.(children := [2], variables := [ViewField], functions := [SetupRecord])
  const SetupScope: Scope := Scope(FunctionType, 3, "setup", Some(1), [], [], [])
  const BlockScope: Scope := Scope(CodeBlockType, 4, "", Some(2), [], [], [])

  /** The arena after the class, its field, the method and its body have been entered. */
  const ClassEnv: Env := Env([Root1, ClassScope], Some(0), Some(1))
  const FieldEnv: Env := Env([Root1, ClassScope.(variables := [ViewField])], Some(0), Some(1))
  const SetupEnv: Env := Env([Root1, ClassScope1, SetupScope], Some(0), Some(2))
  const BodyEnv: Env := Env([Root1, ClassScope1, SetupScope.(children := [3]), BlockScope], Some(0), Some(3))

  /** The arena once the block's closure has been entered. */
  function ClosureEnv(capture: seq<CaptureItem>): Env
  {
    Env([Root1, ClassScope1, SetupScope.(children := [3]), BlockScope.(children := [4]),
         Scope(ClosureType, 5, "", Some(3), [], ClosureSeed(BlockAssignment(capture).signature, 4), [])],
        Some(0), Some(4))
  }

  lemma ClassWellFormed()
    ensures WellFormed(ClassEnv) && WellFormed(FieldEnv) && WellFormed(SetupEnv) && WellFormed(BodyEnv)
  {
  }

  lemma ClosureEnvWellFormed(capture: seq<CaptureItem>)
    ensures WellFormed(ClosureEnv(capture))
  {
    ClosureSeedOfBlock(capture, 4);
    var e := ClosureEnv(capture);
    assert RecordsOwned(e.scopes) by {
      assert forall k :: 0 <= k < |e.scopes[4].variables| ==> e.scopes[4].variables[k].scope == 4;
    }
  }

  lemma ClassStep1()
    ensures RuleVisited(RuleState(TopEnv, [], []), ClassDecl(1, "ViewController")) == RuleState(ClassEnv, [], [])
  {
    TopWellFormed();
    var e := AddChild(TopEnv, ClassType, 1, "ViewController", []);
    assert e.scopes == TopEnv.scopes[0 := Root.(children := Root.children + [1])] + [ClassScope];
    assert Root.children + [1] == [1];
    assert e.scopes == ClassEnv.scopes;
  }

  const FieldDecl: VariableDeclSyntax :=
    VariableDeclSyntax(2, 10, Some(MemberBlockItemKind), [], [PatternBinding(IdentifierPattern("view"), Some("UIView?"), None)])

  lemma ClassStep2()
    ensures RunRule(RuleState(ClassEnv, [], []), WalkTree(VariableDecl(FieldDecl), [])) == RuleState(FieldEnv, [], [])
  {
    ClassWellFormed();
    var st := RuleState(ClassEnv, [], []);
    var v := RuleVisited(st, VariableDecl(FieldDecl));
    assert RuleChildren(v, WalkTree(VariableDecl(FieldDecl), []), 0) == v;
    assert BindingRecords(FieldDecl.bindings, Field, false, 1) == [ViewField] by {
      assert FieldDecl.bindings[..0] == [];
    }
    var e := AddVariables(ClassEnv, 1, [ViewField]);
    assert e.scopes[1].variables == [] + [ViewField] == [ViewField];
    assert e.scopes == FieldEnv.scopes;
  }

  const SetupDecl: FunctionDeclSyntax := FunctionDeclSyntax(3, "setup", "()", [], [])

  lemma ClassStep3()
    ensures RuleVisited(RuleState(FieldEnv, [], []), FunctionDecl(SetupDecl)) == RuleState(SetupEnv, [], [])
  {
    ClassWellFormed();
    assert FunctionParamRecords([], 2) == [];
    var w := AddChild(FieldEnv, FunctionType, 3, "setup", []);
    assert ClassScope.children + [2] == [2];
    assert w.scopes == [Root1, ClassScope.(children := [2], variables := [ViewField]), SetupScope];
    assert [] + [SetupRecord] == [SetupRecord];
    assert "setup" + "()" == "setup()";
    var e := FunctionEntered(FieldEnv, SetupDecl);
    assert e.scopes == SetupEnv.scopes;
  }

  lemma ClassStep4()
    ensures RuleVisited(RuleState(SetupEnv, [], []), CodeBlock(4)) == RuleState(BodyEnv, [], [])
  {
    ClassWellFormed();
    var e := AddChild(SetupEnv, CodeBlockType, 4, "", []);
    assert SetupScope.children + [3] == [3];
    assert e.scopes == BodyEnv.scopes;
  }

  lemma ClassStep5(capture: seq<CaptureItem>)
    ensures RuleVisited(RuleState(BodyEnv, [], []), ClosureExpr(BlockAssignment(capture)))
            == RuleState(ClosureEnv(capture), [ClosureContext(5, [])], [])
  {
    ClassWellFormed();
    var e := AddChild(BodyEnv, ClosureType, 5, "", ClosureSeed(BlockAssignment(capture).signature, 4));
    assert BlockScope.children + [4] == [4];
    assert e.scopes == ClosureEnv(capture).scopes;
  }

  /** Walking from the start up to the closure's entry: the class, the field, the method, its body and the left-hand `view`. */
  lemma ClassPrefix(capture: seq<CaptureItem>)
    ensures WellFormed(BodyEnv)
    ensures RuleVisited(Start, SourceFile(0)) == RuleState(TopEnv, [], [])
    ensures RuleVisited(RuleState(TopEnv, [], []), ClassDecl(1, "ViewController")) == RuleState(ClassEnv, [], [])
    ensures RunRule(RuleState(ClassEnv, [], []), WalkTree(VariableDecl(FieldDecl), [])) == RuleState(FieldEnv, [], [])
    ensures RuleVisited(RuleState(FieldEnv, [], []), FunctionDecl(SetupDecl)) == RuleState(SetupEnv, [], [])
    ensures RuleVisited(RuleState(SetupEnv, [], []), CodeBlock(4)) == RuleState(BodyEnv, [], [])
    ensures RunRule(RuleState(BodyEnv, [], []), WalkTree(Identifier("view"), [])) == RuleState(BodyEnv, [], [])
    ensures RuleVisited(RuleState(BodyEnv, [], []), ClosureExpr(BlockAssignment(capture)))
            == RuleState(ClosureEnv(capture), [ClosureContext(5, [])], [])
  {
    ClassWellFormed();
    TopStep1(); ClassStep1(); ClassStep2(); ClassStep3(); ClassStep4(); ClassStep5(capture);
    IdentifierRun(RuleState(BodyEnv, [], []), "view");
  }

  lemma NotedInClass()
    ensures WellFormed(ClosureEnv([WeakSelf]))
    ensures NoteIdentifier(RuleState(ClosureEnv([WeakSelf]), [ClosureContext(5, [])], []), "view")
            == RuleState(ClosureEnv([WeakSelf]), [ClosureContext(5, ["view"])], [])
  {
    ClosureEnvWellFormed([WeakSelf]);
    ClosureSeedOfBlock([WeakSelf], 4);
    var scopes := ClosureEnv([WeakSelf]).scopes;
    assert !Declares(scopes[4], "view");
    assert !DeclaredWithin(scopes, Some(4), 5, "view");
    assert !("$" <= "view") by { assert "view"[0] != '$'; }
    var top := ClosureContext(5, []);
    assert top.undeclared + ["view"] == ["view"];
    assert [top][0 := top.(undeclared := top.undeclared + ["view"])] == [ClosureContext(5, ["view"])];
  }

  lemma DeclaredInClass()
    ensures WellFormed(ClosureEnv([WeakSelf, WeakView]))
    ensures NoteIdentifier(RuleState(ClosureEnv([WeakSelf, WeakView]), [ClosureContext(5, [])], []), "view")
            == RuleState(ClosureEnv([WeakSelf, WeakView]), [ClosureContext(5, [])], [])
  {
    ClosureEnvWellFormed([WeakSelf, WeakView]);
    ClosureSeedOfBlock([WeakSelf, WeakView], 4);
    var scopes := ClosureEnv([WeakSelf, WeakView]).scopes;
    assert scopes[4].variables[1].name == "view";
    assert Declares(scopes[4], "view");
  }

  lemma ReportedInClass()
    ensures WellFormed(ClosureEnv([WeakSelf]))
    ensures ClosureReports(RuleState(ClosureEnv([WeakSelf]), [ClosureContext(5, ["view"])], []), BlockAssignment([WeakSelf])) == [40]
  {
    ClosureEnvWellFormed([WeakSelf]);
    var scopes := ClosureEnv([WeakSelf]).scopes;
    assert FindVariable(scopes, Some(1), "view") == Some(ViewField);
    assert FindVariable(scopes, Some(3), "view") == Some(ViewField);
  }

  /** From the closure's body back up to the end of the file: only the closure's visitPost can report. */
  lemma ClassSuffix(capture: seq<CaptureItem>, t: RuleState)
    requires WellFormed(ClosureEnv(capture))
    requires RunRule(RuleState(ClosureEnv(capture), [ClosureContext(5, [])], []), WalkTree(Identifier("view"), [])) == t
    ensures RunRule(Start, InClass(capture)).violations == ClosureReports(t, BlockAssignment(capture))
  {
    ClassPrefix(capture);
    var c := BlockAssignment(capture);
    var closureTree := WalkTree(ClosureExpr(c), [WalkTree(Identifier("view"), [])]);
    var body := RuleState(BodyEnv, [], []);
    OneChildRun(body, closureTree);
    var r := RunRule(body, closureTree);
    assert r.violations == ClosureReports(t, c);
    var blockTree := WalkTree(CodeBlock(4), Statement(capture));
    TwoChildrenRun(RuleState(SetupEnv, [], []), blockTree);
    var rb := RunRule(RuleState(SetupEnv, [], []), blockTree);
    assert rb.violations == r.violations;
    var setupTree := WalkTree(FunctionDecl(SetupDecl), [blockTree]);
    OneChildRun(RuleState(FieldEnv, [], []), setupTree);
    var rs := RunRule(RuleState(FieldEnv, [], []), setupTree);
    assert rs.violations == rb.violations;
    var classTree := WalkTree(ClassDecl(1, "ViewController"), [WalkTree(VariableDecl(FieldDecl), []), setupTree]);
    TwoChildrenRun(RuleState(TopEnv, [], []), classTree);
    var rc := RunRule(RuleState(TopEnv, [], []), classTree);
    assert rc.violations == rs.violations;
    OneChildRun(Start, InClass(capture));
  }

  /** At the top level `view` resolves to no declaration, so nothing is reported. */
  lemma TriggeringExampleAtTopLevel()
    ensures RunRule(Start, TopLevel([WeakSelf])).violations == []
  {
    var c := BlockAssignment([WeakSelf]);
    var s1 := RuleState(TopEnv, [], []);
    var s2 := RuleState(TopClosureEnv, [ClosureContext(5, [])], []);
    var s3 := RuleState(TopClosureEnv, [ClosureContext(5, ["view"])], []);
    TopWellFormed(); TopStep1(); TopStep2(); TopStep3(); TopStep4();
    IdentifierRun(s1, "view");
    IdentifierRun(s2, "view");
    OneChildRun(s1, WalkTree(ClosureExpr(c), [WalkTree(Identifier("view"), [])]));
    assert RunRule(s1, WalkTree(ClosureExpr(c), [WalkTree(Identifier("view"), [])])).violations == [];
    TwoChildrenRun(Start, TopLevel([WeakSelf]));
  }

  /** Walking a bare identifier is noting it. */
  lemma IdentifierRun(st: RuleState, name: string)
    requires WellFormed(st.env)
    ensures RunRule(st, WalkTree(Identifier(name), [])) == NoteIdentifier(st, name)
  {
    assert RuleChildren(NoteIdentifier(st, name), WalkTree(Identifier(name), []), 0) == NoteIdentifier(st, name);
  }

  lemma OneChildRun(st: RuleState, w: WalkTree)
    requires WellFormed(st.env) && |w.children| == 1
    ensures RunRule(st, w) == RuleLeft(RunRule(RuleVisited(st, w.node), w.children[0]), w.node)
  {
    var v := RuleVisited(st, w.node);
    assert RuleChildren(v, w, 1) == RunRule(RuleChildren(v, w, 0), w.children[0]);
  }

  lemma TwoChildrenRun(st: RuleState, w: WalkTree)
    requires WellFormed(st.env) && |w.children| == 2
    ensures RunRule(st, w) == RuleLeft(RunRule(RunRule(RuleVisited(st, w.node), w.children[0]), w.children[1]), w.node)
  {
    var v := RuleVisited(st, w.node);
    assert RuleChildren(v, w, 1) == RunRule(RuleChildren(v, w, 0), w.children[0]);
    assert RuleChildren(v, w, 2) == RunRule(RuleChildren(v, w, 1), w.children[1]);
  }

  const Root: Scope := Scope(FileRoot, 0, "", None, [], [], [])
  const TopEnv: Env := Env([Root], Some(0), Some(0))
  const TopClosureEnv: Env :=
    Env([Root.(children := [1]), Scope(ClosureType, 5, "", Some(0), [], ClosureSeed(BlockAssignment([WeakSelf]).signature, 1), [])],
        Some(0), Some(1))

  lemma TopWellFormed()
    ensures WellFormed(TopEnv) && WellFormed(TopClosureEnv)
  {
  }

  lemma TopStep1()
    ensures RuleVisited(Start, SourceFile(0)) == RuleState(TopEnv, [], [])
  {
  }

  lemma TopStep2()
    ensures RuleVisited(RuleState(TopEnv, [], []), ClosureExpr(BlockAssignment([WeakSelf]))) == RuleState(TopClosureEnv, [ClosureContext(5, [])], [])
  {
    TopWellFormed();
    var c := BlockAssignment([WeakSelf]);
    var e := Entered(TopEnv, ClosureExpr(c));
    assert e == AddChild(TopEnv, ClosureType, 5, "", ClosureSeed(c.signature, 1));
    assert Root.children + [1] == [1];
    assert e.scopes == TopClosureEnv.scopes;
  }

  lemma TopStep3()
    ensures NoteIdentifier(RuleState(TopClosureEnv, [ClosureContext(5, [])], []), "view") == RuleState(TopClosureEnv, [ClosureContext(5, ["view"])], [])
  {
    TopWellFormed();
    ClosureSeedOfBlock([WeakSelf], 1);
    assert !Declares(TopClosureEnv.scopes[1], "view");
    assert !DeclaredWithin(TopClosureEnv.scopes, Some(1), 5, "view");
    assert !("$" <= "view") by { assert "view"[0] != '$'; }
    var top := ClosureContext(5, []);
    assert top.undeclared + ["view"] == ["view"];
    assert [top][0 := top.(undeclared := top.undeclared + ["view"])] == [ClosureContext(5, ["view"])];
  }

  /** The variables of the block's closure scope: its captures, then the shorthand parameter `a`. */
  lemma ClosureSeedOfBlock(capture: seq<CaptureItem>, scope: nat)
    ensures ClosureSeed(BlockAssignment(capture).signature, scope)
            == CaptureRecords(capture, scope) + [VariableRecord(FunctionParam, "a", "", false, false, scope)]
  {
  }

  lemma TopStep4()
    ensures ClosureReports(RuleState(TopClosureEnv, [ClosureContext(5, ["view"])], []), BlockAssignment([WeakSelf])) == []
  {
    TopWellFormed();
  }
}
