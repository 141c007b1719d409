/**
  Name resolution over the scope tree: walking outward from a scope along parent links,
  looking a name up in each scope's variable (or function) list in declaration order.
 */
module CaptureResolver {
  import opened Wrappers
  import opened SyntaxTree
  import opened FileContext

  /** The scopes met walking outward from `start`, nearest first, up to the file root. */
  function Chain(scopes: seq<Scope>, start: Option<nat>): (c: seq<nat>)
    requires ParentsBelow(scopes) && InArena(scopes, start)
    ensures forall k :: 0 <= k < |c| ==> c[k] < |scopes|
    ensures start.Some? ==> c != [] && c[0] == start.value
    decreases if start.Some? then start.value + 1 else 0
  {
    if start.None? then [] else [start.value] + Chain(scopes, scopes[start.value].parent)
  }

  /** Whether scope `s` declares a variable named `name`. */
  predicate Declares(s: Scope, name: string)
  {
    exists k :: 0 <= k < |s.variables| && s.variables[k].name == name
  }

  /** Whether scope `s` declares a function named `name`. */
  predicate DeclaresFunction(s: Scope, name: string)
  {
    exists k :: 0 <= k < |s.functions| && s.functions[k].name == name
  }

  /** Whether `s` is the scope opened by the closure literal `closure`. */
  predicate IsScopeOfClosure(s: Scope, closure: NodeId)
  {
    s.kind == ClosureType && s.node == closure
  }

  /**
    Whether `name` is declared in a scope met walking outward from `start`, up to and
    including the scope of the closure literal `closure`.  A scope's own variables are
    looked at before it is recognised as the boundary.
   */
  function DeclaredWithin(scopes: seq<Scope>, start: Option<nat>, closure: NodeId, name: string): bool
    requires ParentsBelow(scopes) && InArena(scopes, start)
    decreases if start.Some? then start.value + 1 else 0
  {
    if start.None? then false
    else
      var s := scopes[start.value];
      if Declares(s, name) then true
      else if IsScopeOfClosure(s, closure) then false
      else DeclaredWithin(scopes, s.parent, closure, name)
  }

  /** The first variable named `name` in a declaration list. */
  function FirstVariableNamed(vs: seq<VariableRecord>, name: string): (r: Option<VariableRecord>)
    ensures r.Some? ==> r.value.name == name && r.value in vs
    ensures r.None? <==> forall k :: 0 <= k < |vs| ==> vs[k].name != name
  {
    if vs == [] then None
    else if vs[0].name == name then Some(vs[0])
    else
      var r := FirstVariableNamed(vs[1..], name);
      assert forall k :: 1 <= k < |vs| ==> vs[k] == vs[1..][k - 1];
      r
  }

  /** The record `FirstVariableNamed` finds is the first of that name in the list. */
  lemma {:induction false} FirstVariableNamedIsFirst(vs: seq<VariableRecord>, name: string)
    ensures var r := FirstVariableNamed(vs, name);
      r.Some? ==> exists k :: 0 <= k < |vs| && vs[k] == r.value && forall i :: 0 <= i < k ==> vs[i].name != name
  {
    if vs != [] && vs[0].name != name {
      var r := FirstVariableNamed(vs[1..], name);
      FirstVariableNamedIsFirst(vs[1..], name);
      if r.Some? {
        var k :| 0 <= k < |vs[1..]| && vs[1..][k] == r.value && forall i :: 0 <= i < k ==> vs[1..][i].name != name;
        assert vs[k + 1] == r.value;
        forall i | 0 <= i < k + 1 ensures vs[i].name != name {
          if i > 0 { assert vs[i] == vs[1..][i - 1]; }
        }
      }
    }
  }

  /** The first function named `name` in a declaration list. */
  function FirstFunctionNamed(fs: seq<FunctionRecord>, name: string): (r: Option<FunctionRecord>)
    ensures r.Some? ==> r.value.name == name && r.value in fs
    ensures r.None? <==> forall k :: 0 <= k < |fs| ==> fs[k].name != name
  {
    if fs == [] then None
    else if fs[0].name == name then Some(fs[0])
    else
      var r := FirstFunctionNamed(fs[1..], name);
      assert forall k :: 1 <= k < |fs| ==> fs[k] == fs[1..][k - 1];
      r
  }

  /** The record `FirstFunctionNamed` finds is the first of that name in the list. */
  lemma {:induction false} FirstFunctionNamedIsFirst(fs: seq<FunctionRecord>, name: string)
    ensures var r := FirstFunctionNamed(fs, name);
      r.Some? ==> exists k :: 0 <= k < |fs| && fs[k] == r.value && forall i :: 0 <= i < k ==> fs[i].name != name
  {
    if fs != [] && fs[0].name != name {
      var r := FirstFunctionNamed(fs[1..], name);
      FirstFunctionNamedIsFirst(fs[1..], name);
      if r.Some? {
        var k :| 0 <= k < |fs[1..]| && fs[1..][k] == r.value && forall i :: 0 <= i < k ==> fs[1..][i].name != name;
        assert fs[k + 1] == r.value;
        forall i | 0 <= i < k + 1 ensures fs[i].name != name {
          if i > 0 { assert fs[i] == fs[1..][i - 1]; }
        }
      }
    }
  }

  /** The variable `name` resolves to from `start`: the first one in the nearest scope declaring it. */
  function FindVariable(scopes: seq<Scope>, start: Option<nat>, name: string): (r: Option<VariableRecord>)
    requires ParentsBelow(scopes) && InArena(scopes, start)
    decreases if start.Some? then start.value + 1 else 0
  {
    if start.None? then None
    else
      var found := FirstVariableNamed(scopes[start.value].variables, name);
      if found.Some? then found else FindVariable(scopes, scopes[start.value].parent, name)
  }

  /** The function `name` resolves to from `start`: the first one in the nearest scope declaring it. */
  function FindFunction(scopes: seq<Scope>, start: Option<nat>, name: string): (r: Option<FunctionRecord>)
    requires ParentsBelow(scopes) && InArena(scopes, start)
    decreases if start.Some? then start.value + 1 else 0
  {
    if start.None? then None
    else
      var found := FirstFunctionNamed(scopes[start.value].functions, name);
      if found.Some? then found else FindFunction(scopes, scopes[start.value].parent, name)
  }

  /**
    Resolution succeeds exactly when some scope on the outward chain declares the name, and
    the record found is the first of that name in the list of the nearest such scope.
   */
  lemma {:induction false} FindVariableIsNearest(scopes: seq<Scope>, start: Option<nat>, name: string)
    requires ParentsBelow(scopes) && RecordsOwned(scopes) && InArena(scopes, start)
    ensures FindVariable(scopes, start, name).None? <==>
              forall j :: 0 <= j < |Chain(scopes, start)| ==> !Declares(scopes[Chain(scopes, start)[j]], name)
    ensures var c := Chain(scopes, start); var r := FindVariable(scopes, start, name);
      (r.Some? ==>
            && r.value.name == name && r.value.scope < |scopes| && r.value in scopes[r.value.scope].variables
            && (exists j :: 0 <= j < |c| && c[j] == r.value.scope
                 && forall i :: 0 <= i < j ==> !Declares(scopes[c[i]], name))
            && var xs := scopes[r.value.scope].variables;
               exists k :: 0 <= k < |xs| && xs[k] == r.value && forall i :: 0 <= i < k ==> xs[i].name != name)
    decreases if start.Some? then start.value + 1 else 0
  {
    if start.Some? {
      var s := start.value;
      var c := Chain(scopes, start);
      var rest := Chain(scopes, scopes[s].parent);
      assert c == [s] + rest;
      var found := FirstVariableNamed(scopes[s].variables, name);
      if found.Some? {
        FirstVariableNamedIsFirst(scopes[s].variables, name);
        var k :| 0 <= k < |scopes[s].variables| && scopes[s].variables[k] == found.value;
        assert found.value.scope == s;
        assert c[0] == s && Declares(scopes[c[0]], name);
        assert FindVariable(scopes, start, name) == found;
        assert !(forall j :: 0 <= j < |c| ==> !Declares(scopes[c[j]], name));
      } else {
        FindVariableIsNearest(scopes, scopes[s].parent, name);
        assert !Declares(scopes[s], name);
        forall j | 1 <= j < |c| ensures c[j] == rest[j - 1] { }
        var r := FindVariable(scopes, start, name);
        if r.Some? {
          var j :| 0 <= j < |rest| && rest[j] == r.value.scope
                   && forall i :: 0 <= i < j ==> !Declares(scopes[rest[i]], name);
          assert c[j + 1] == r.value.scope;
          forall i | 0 <= i < j + 1 ensures !Declares(scopes[c[i]], name) {
            if i > 0 { assert c[i] == rest[i - 1]; }
          }
        } else {
          assert FindVariable(scopes, scopes[s].parent, name).None?;
          assert forall i :: 0 <= i < |Chain(scopes, scopes[s].parent)| ==> !Declares(scopes[Chain(scopes, scopes[s].parent)[i]], name);
          forall j | 0 <= j < |c| ensures !Declares(scopes[c[j]], name) {
            if j > 0 {
              assert c[j] == rest[j - 1];
              assert !Declares(scopes[rest[j - 1]], name);
            }
          }
        }
      }
    }
  }

  /**
    Function resolution succeeds exactly when some scope on the outward chain declares a
    function of that name, and the record found is the first of that name in the list of the
    nearest such scope.
   */
  lemma {:induction false} FindFunctionIsNearest(scopes: seq<Scope>, start: Option<nat>, name: string)
    requires ParentsBelow(scopes) && RecordsOwned(scopes) && InArena(scopes, start)
    ensures FindFunction(scopes, start, name).None? <==>
              forall j :: 0 <= j < |Chain(scopes, start)| ==> !DeclaresFunction(scopes[Chain(scopes, start)[j]], name)
    ensures var c := Chain(scopes, start); var r := FindFunction(scopes, start, name);
      (r.Some? ==>
            && r.value.name == name && r.value.scope < |scopes| && r.value in scopes[r.value.scope].functions
            && (exists j :: 0 <= j < |c| && c[j] == r.value.scope
                 && forall i :: 0 <= i < j ==> !DeclaresFunction(scopes[c[i]], name))
            && var xs := scopes[r.value.scope].functions;
               exists k :: 0 <= k < |xs| && xs[k] == r.value && forall i :: 0 <= i < k ==> xs[i].name != name)
    decreases if start.Some? then start.value + 1 else 0
  {
    if start.Some? {
      var s := start.value;
      var c := Chain(scopes, start);
      var rest := Chain(scopes, scopes[s].parent);
      assert c == [s] + rest;
      var found := FirstFunctionNamed(scopes[s].functions, name);
      if found.Some? {
        FirstFunctionNamedIsFirst(scopes[s].functions, name);
        var k :| 0 <= k < |scopes[s].functions| && scopes[s].functions[k] == found.value;
        assert found.value.scope == s;
        assert c[0] == s && DeclaresFunction(scopes[c[0]], name);
        assert FindFunction(scopes, start, name) == found;
        assert !(forall j :: 0 <= j < |c| ==> !DeclaresFunction(scopes[c[j]], name));
      } else {
        FindFunctionIsNearest(scopes, scopes[s].parent, name);
        assert !DeclaresFunction(scopes[s], name);
        forall j | 1 <= j < |c| ensures c[j] == rest[j - 1] { }
        var r := FindFunction(scopes, start, name);
        if r.Some? {
          var j :| 0 <= j < |rest| && rest[j] == r.value.scope
                   && forall i :: 0 <= i < j ==> !DeclaresFunction(scopes[rest[i]], name);
          assert c[j + 1] == r.value.scope;
          forall i | 0 <= i < j + 1 ensures !DeclaresFunction(scopes[c[i]], name) {
            if i > 0 { assert c[i] == rest[i - 1]; }
          }
        } else {
          assert FindFunction(scopes, scopes[s].parent, name).None?;
          assert forall i :: 0 <= i < |Chain(scopes, scopes[s].parent)| ==> !DeclaresFunction(scopes[Chain(scopes, scopes[s].parent)[i]], name);
          forall j | 0 <= j < |c| ensures !DeclaresFunction(scopes[c[j]], name) {
            if j > 0 {
              assert c[j] == rest[j - 1];
              assert !DeclaresFunction(scopes[rest[j - 1]], name);
            }
          }
        }
      }
    }
  }

  /**
    A name counts as declared within a closure exactly when some scope on the outward chain
    declares it and no scope strictly nearer than that one is the closure's own scope.
   */
  lemma DeclaredWithinIff(scopes: seq<Scope>, start: Option<nat>, closure: NodeId, name: string)
    requires ParentsBelow(scopes) && InArena(scopes, start)
    ensures var c := Chain(scopes, start);
      DeclaredWithin(scopes, start, closure, name) <==>
        exists j :: 0 <= j < |c| && Declares(scopes[c[j]], name)
          && forall i :: 0 <= i < j ==> !IsScopeOfClosure(scopes[c[i]], closure)
  {
    DeclaredWithinIsOnChain(scopes, start, closure, name);
    DeclaredOnChainIff(scopes, Chain(scopes, start), closure, name);
  }

  /** `DeclaredWithin` read along a given chain of scope indices. */
  predicate DeclaredOnChain(scopes: seq<Scope>, c: seq<nat>, closure: NodeId, name: string)
    requires forall k :: 0 <= k < |c| ==> c[k] < |scopes|
  {
    c != [] && (Declares(scopes[c[0]], name) || (!IsScopeOfClosure(scopes[c[0]], closure) && DeclaredOnChain(scopes, c[1..], closure, name)))
  }

  lemma {:induction false} DeclaredWithinIsOnChain(scopes: seq<Scope>, start: Option<nat>, closure: NodeId, name: string)
    requires ParentsBelow(scopes) && InArena(scopes, start)
    ensures DeclaredWithin(scopes, start, closure, name) == DeclaredOnChain(scopes, Chain(scopes, start), closure, name)
    decreases if start.Some? then start.value + 1 else 0
  {
    if start.Some? {
      var s := start.value;
      DeclaredWithinIsOnChain(scopes, scopes[s].parent, closure, name);
      assert Chain(scopes, start)[1..] == Chain(scopes, scopes[s].parent);
    }
  }

  lemma {:induction false} DeclaredOnChainIff(scopes: seq<Scope>, c: seq<nat>, closure: NodeId, name: string)
    requires forall k :: 0 <= k < |c| ==> c[k] < |scopes|
    ensures DeclaredOnChain(scopes, c, closure, name) <==>
      exists j :: 0 <= j < |c| && Declares(scopes[c[j]], name)
        && forall i :: 0 <= i < j ==> !IsScopeOfClosure(scopes[c[i]], closure)
  {
    if c != [] {
      var rest := c[1..];
      DeclaredOnChainIff(scopes, rest, closure, name);
      if Declares(scopes[c[0]], name) {
      } else if IsScopeOfClosure(scopes[c[0]], closure) {
        forall j | 0 <= j < |c| && Declares(scopes[c[j]], name)
          ensures !forall i :: 0 <= i < j ==> !IsScopeOfClosure(scopes[c[i]], closure)
        {
          assert j != 0;
        }
      } else if DeclaredOnChain(scopes, rest, closure, name) {
        var j :| 0 <= j < |rest| && Declares(scopes[rest[j]], name)
                 && forall i :: 0 <= i < j ==> !IsScopeOfClosure(scopes[rest[i]], closure);
        assert c[j + 1] == rest[j];
        forall i | 0 <= i < j + 1 ensures !IsScopeOfClosure(scopes[c[i]], closure) {
          if i > 0 { assert c[i] == rest[i - 1]; }
        }
      } else {
        forall j | 0 <= j < |c| && Declares(scopes[c[j]], name)
          ensures !forall i :: 0 <= i < j ==> !IsScopeOfClosure(scopes[c[i]], closure)
        {
          assert j != 0;
          assert c[j] == rest[j - 1];
          if forall i :: 0 <= i < j ==> !IsScopeOfClosure(scopes[c[i]], closure) {
            forall i | 0 <= i < j - 1 ensures !IsScopeOfClosure(scopes[rest[i]], closure) {
              assert rest[i] == c[i + 1];
            }
          }
        }
      }
    }
  }

  /** A name declared within a closure's reach also resolves by the unbounded search. */
  lemma {:induction false} DeclaredWithinIsFound(scopes: seq<Scope>, start: Option<nat>, closure: NodeId, name: string)
    requires ParentsBelow(scopes) && InArena(scopes, start)
    requires DeclaredWithin(scopes, start, closure, name)
    ensures FindVariable(scopes, start, name).Some?
    decreases if start.Some? then start.value + 1 else 0
  {
    var s := start.value;
    if !Declares(scopes[s], name) {
      DeclaredWithinIsFound(scopes, scopes[s].parent, closure, name);
    } else {
      var k :| 0 <= k < |scopes[s].variables| && scopes[s].variables[k].name == name;
    }
  }

  /**
    After `if let x = …` with a plain identifier pattern, a use of `x` in the scope the binding
    was made in counts as declared for every closure, and resolves to a variable.
   */
  lemma OptionalBindingDeclares(e: Env, id: NodeId, pattern: Pattern, closure: NodeId)
    requires WellFormed(e) && e.current.Some? && pattern.IdentifierPattern?
    ensures var r := Entered(e, OptionalBindingCondition(id, pattern));
      DeclaredWithin(r.scopes, r.current, closure, pattern.name) && FindVariable(r.scopes, r.current, pattern.name).Some?
  {
    var r := Entered(e, OptionalBindingCondition(id, pattern));
    var c := e.current.value;
    OptionalBindingEntered(e, id, pattern);
    var vs := r.scopes[c].variables;
    assert vs[|vs| - 1].name == pattern.name;
    assert Declares(r.scopes[c], pattern.name);
    DeclaredWithinIsFound(r.scopes, r.current, closure, pattern.name);
  }

  /** Inside a closure's own scope, every capture-list or parameter name counts as declared. */
  lemma OwnDeclarationsAreDeclared(scopes: seq<Scope>, s: nat, closure: NodeId, v: VariableRecord)
    requires ParentsBelow(scopes) && s < |scopes|
    requires v in scopes[s].variables
    ensures DeclaredWithin(scopes, Some(s), closure, v.name)
  {
    var k :| 0 <= k < |scopes[s].variables| && scopes[s].variables[k] == v;
  }
}
