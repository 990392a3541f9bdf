/**
 * How the two scope computations relate: both make the members of an enum
 * declared by a type definition at the top of the document visible in the
 * Program, but only mediator-scope.ts hoists enum members declared deeper.
 */
module ScopeDrafts {
  import opened Wrappers
  import opened Ast
  import opened EnumScopes
  import MediatorScope
  import MediatorScopeProvider

  /** Walking up from an enum member to the type node it was reached from passes no scope root. */
  lemma {:induction false} SameScopeRoot(t: Tree, x: NodeId, m: NodeId)
    requires t.Valid() && x < |t.nodes| && EnumMemberWithin(t, x, m)
    ensures m < |t.nodes| && t.nodes[m].parent.Some?
    ensures MediatorScope.ScopeRootAbove(t, t.nodes[m].parent.value) == MediatorScope.ScopeRootAbove(t, x)
    decreases |t.nodes| - x
  {
    var node := t.nodes[x];
    if node.kind == EnumType {
      var i :| 0 <= i < |node.children| && node.children[i] == m;
    } else {
      var i :| 0 <= i < |node.children| && EnumMemberWithin(t, node.children[i], m);
      SameScopeRoot(t, node.children[i], m);
    }
  }

  /**
   * An enum member reachable from the declared type of a type definition held
   * by the Program is visible in the Program under both computations.
   */
  lemma TopLevelEnumMembersAgree(t: Tree, n: NodeId, m: NodeId)
    requires t.Valid() && 0 < n < |t.nodes| && m < |t.nodes|
    requires MediatorScopeProvider.HoistsEnums(t, n) && |t.nodes[n].children| > 0
    requires EnumMemberWithin(t, t.nodes[n].children[0], m)
    requires t.nodes[m].kind == EnumMember && HasName(t.nodes[m])
    ensures Entry(t.nodes[n].parent.value, t.nodes[m].name.value, m) in MediatorScope.LocalScopes(t)
    ensures Entry(t.nodes[n].parent.value, t.nodes[m].name.value, m) in MediatorScopeProvider.LocalScopes(t)
  {
    TopLevelEnumMemberHoisted(t, n, m);
    MediatorScope.EnumMemberVisibleAtTarget(t, m);
    MediatorScopeProvider.TopLevelEnumMembersVisible(t, n, m);
  }

  lemma TopLevelEnumMemberHoisted(t: Tree, n: NodeId, m: NodeId)
    requires t.Valid() && n < |t.nodes| && m < |t.nodes|
    requires MediatorScopeProvider.HoistsEnums(t, n) && |t.nodes[n].children| > 0
    requires EnumMemberWithin(t, t.nodes[n].children[0], m)
    requires t.nodes[m].kind == EnumMember && HasName(t.nodes[m])
    ensures 0 < m
    ensures MediatorScope.EnumHoistTarget(t, t.nodes[m].parent.value) == t.nodes[n].parent
  {
    var ty := t.nodes[n].children[0];
    SameScopeRoot(t, ty, m);
    assert MediatorScope.ScopeRootAbove(t, ty) == Some(n);
  }

  /** `function f { enum { A } }`: the Program, a function, an enum type and its member. */
  const FunctionEnum := Tree([
    Node(Program, None, None, [1]),
    Node(Function, Some("f"), Some(0), [2]),
    Node(EnumType, None, Some(1), [3]),
    Node(EnumMember, Some("A"), Some(2), [])
  ])

  /**
   * An enum declared inside a function: mediator-scope.ts also registers its
   * member in the function, mediator-scope-provider.ts only in the enum type.
   */
  lemma EnumInsideFunction()
    ensures FunctionEnum.Valid()
    ensures MediatorScope.NodeEntries(FunctionEnum, 3) == [Entry(2, "A", 3), Entry(1, "A", 3)]
    ensures MediatorScopeProvider.NodeEntries(FunctionEnum, 3) == [Entry(2, "A", 3)]
    ensures MediatorScopeProvider.NodeEntries(FunctionEnum, 2) == []
  {
    FunctionEnumValid();
    var t := FunctionEnum;
    assert MediatorScope.ScopeRootAbove(t, 2) == Some(1);
  }

  lemma FunctionEnumValid()
    ensures FunctionEnum.Valid()
  {
    FunctionEnumChildren();
    FunctionEnumPreOrder();
  }

  lemma FunctionEnumChildren()
    ensures FunctionEnum.ChildrenAfter()
    ensures forall n, i :: 0 <= n < |FunctionEnum.nodes| && 0 <= i < |FunctionEnum.nodes[n].children| ==>
      FunctionEnum.nodes[FunctionEnum.nodes[n].children[i]].parent == Some(n)
  {
    var t := FunctionEnum;
    forall n, i | 0 <= n < |t.nodes| && 0 <= i < |t.nodes[n].children|
      ensures n < t.nodes[n].children[i] < |t.nodes| && t.nodes[t.nodes[n].children[i]].parent == Some(n)
    {
      assert i == 0 && t.nodes[n].children[i] == n + 1;
    }
  }

  lemma FunctionEnumPreOrder()
    ensures FunctionEnum.PreOrder()
  {
    var t := FunctionEnum;
    assert t.InWalkOrder(0) && t.InWalkOrder(1) && t.InWalkOrder(2) && t.InWalkOrder(3);
    assert t.PreOrderBelow(1);
    assert t.PreOrderBelow(2);
    assert t.PreOrderBelow(3);
  }
}
