/**
  The lazy-property rule: a stored property of a type whose initial value is produced by
  calling a closure literal in place (`var v: T = { ... }()`) should be declared `lazy`.
 */
module LazyView {
  import opened Wrappers
  import opened SyntaxTree

  /** The declaration is a type member: its parent is a member-block item. */
  predicate IsMemberDecl(d: VariableDeclSyntax)
  {
    d.parentKind == Some(MemberBlockItemKind)
  }

  /** Exactly one binding, with an initializer that calls a closure literal. */
  predicate InitializedByClosureCall(d: VariableDeclSyntax)
  {
    && |d.bindings| == 1
    && d.bindings[0].initializer.Some?
    && d.bindings[0].initializer.value.FunctionCallExpr?
    && d.bindings[0].initializer.value.call.callee.ClosureLiteral?
  }

  /** The rule's decision for one variable declaration. */
  predicate LazyViolation(d: VariableDeclSyntax)
  {
    IsMemberDecl(d) && "lazy" !in d.modifiers && "static" !in d.modifiers && InitializedByClosureCall(d)
  }

  class LazyViewVisitor {
    var violations: seq<nat>

    constructor ()
      ensures violations == []
    {
      violations := [];
    }

    /** visitPost of a variable declaration: at most one report, at the declaration's position. */
    method VisitPostVariableDecl(node: VariableDeclSyntax)
      modifies this
      ensures violations == old(violations) + if LazyViolation(node) then [node.position] else []
    {
      // 1. a member of a class, struct, enum or extension
      if node.parentKind != Some(MemberBlockItemKind) {
        return;
      }
      // 2. neither lazy nor static
      var hasLazyModifier := false;
      var hasStaticModifier := false;
      var i := 0;
      while i < |node.modifiers|
        invariant 0 <= i <= |node.modifiers|
        invariant hasLazyModifier <==> "lazy" in node.modifiers[..i]
        invariant hasStaticModifier <==> "static" in node.modifiers[..i]
      {
        if node.modifiers[i] == "lazy" {
          hasLazyModifier := true;
        }
        if node.modifiers[i] == "static" {
          hasStaticModifier := true;
        }
        assert node.modifiers[..i + 1] == node.modifiers[..i] + [node.modifiers[i]];
        i := i + 1;
      }
      assert node.modifiers[..i] == node.modifiers;
      if hasLazyModifier || hasStaticModifier {
        return;
      }
      // 3. a single binding with an initializer
      if !(|node.bindings| == 1 && node.bindings[0].initializer.Some?) {
        return;
      }
      // 4. the initializer calls a closure literal
      var value := node.bindings[0].initializer.value;
      if value.FunctionCallExpr? && value.call.callee.ClosureLiteral? {
        violations := violations + [node.position];
      }
    }
  }

  /**
    Adding `lazy` or `static` to any declaration silences the rule, and for a member stored
    property initialized by a closure call, dropping every `lazy` and `static` modifier makes
    it report.
   */
  lemma ModifiersDecide(d: VariableDeclSyntax, extra: seq<string>)
    ensures "lazy" in extra || "static" in extra ==> !LazyViolation(d.(modifiers := d.modifiers + extra))
    ensures IsMemberDecl(d) && InitializedByClosureCall(d) ==>
              LazyViolation(d.(modifiers := Without(Without(d.modifiers, "lazy"), "static")))
  {
    if "lazy" in extra {
      var k :| 0 <= k < |extra| && extra[k] == "lazy";
      assert (d.modifiers + extra)[|d.modifiers| + k] == "lazy";
    }
    if "static" in extra {
      var k :| 0 <= k < |extra| && extra[k] == "static";
      assert (d.modifiers + extra)[|d.modifiers| + k] == "static";
    }
    WithoutRemoves(d.modifiers, "lazy");
    WithoutRemoves(Without(d.modifiers, "lazy"), "static");
    WithoutKeepsAbsent(Without(d.modifiers, "lazy"), "static", "lazy");
  }

  /** A modifier list with every occurrence of `m` removed. */
  function Without(ms: seq<string>, m: string): seq<string>
  {
    if ms == [] then [] else (if ms[0] == m then [] else [ms[0]]) + Without(ms[1..], m)
  }

  lemma {:induction false} WithoutRemoves(ms: seq<string>, m: string)
    ensures m !in Without(ms, m)
  {
    if ms != [] {
      WithoutRemoves(ms[1..], m);
    }
  }

  lemma {:induction false} WithoutKeepsAbsent(ms: seq<string>, m: string, a: string)
    requires a !in ms
    ensures a !in Without(ms, m)
  {
    if ms != [] {
      assert a !in ms[1..];
      WithoutKeepsAbsent(ms[1..], m, a);
    }
  }

  /** The rule's two examples, as members of a type: `lazy` does not report, the same without it does. */
  lemma Examples(body: Syntax, position: nat)
    ensures var initializer := Some(FunctionCallExpr(FunctionCall(ClosureLiteral(1, body), Node([]), None)));
      var binding := PatternBinding(IdentifierPattern("successImageView"), Some("UIImageView"), initializer);
      && !LazyViolation(VariableDeclSyntax(0, position, Some(MemberBlockItemKind), ["lazy"], [binding]))
      && LazyViolation(VariableDeclSyntax(0, position, Some(MemberBlockItemKind), [], [binding]))
      && !LazyViolation(VariableDeclSyntax(0, position, Some(OtherKind), [], [binding]))
  {
  }
}
