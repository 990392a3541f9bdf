/**
 * The scope computation of mediator-scope.ts: one pass over every node below
 * the root, registering each named node in its container and hoisting
 * component names, variable names and enum members to enclosing scopes.
 */
module MediatorScope {
  import opened Wrappers
  import opened Ast

  /** The node kinds an enum member is hoisted to (`isCorrectScope`). */
  predicate IsScopeRoot(k: Kind)
  {
    k == TypeDef || k == Function || k == Automaton || k == System || k == LoopStatement || k == FunctionLoopStatement
  }

  /** Where the `while` loop of `processNode` stops: the first strict container of `p` that is a scope root. */
  function ScopeRootAbove(t: Tree, p: NodeId): (r: Option<NodeId>)
    requires t.Valid() && p < |t.nodes|
    ensures r.Some? ==> r.value < p && t.Encloses(r.value, p) && IsScopeRoot(t.nodes[r.value].kind)
    decreases p
  {
    var up := t.nodes[p].parent;
    if up.None? then None
    else if IsScopeRoot(t.nodes[up.value].kind) then up
    else ScopeRootAbove(t, up.value)
  }

  /** The scope an enum member held by `container` is hoisted to; a type definition hands it on to its own container. */
  function EnumHoistTarget(t: Tree, container: NodeId): (r: Option<NodeId>)
    requires t.Valid() && container < |t.nodes|
  {
    match ScopeRootAbove(t, container)
    case None => None
    case Some(root) => if t.nodes[root].kind == TypeDef then t.nodes[root].parent else Some(root)
  }

  /** What `processNode(n)` appends to the scopes. */
  function NodeEntries(t: Tree, n: NodeId): (r: seq<Entry>)
    requires t.Valid() && n < |t.nodes|
  {
    var node := t.nodes[n];
    if node.parent.None? || !HasName(node) then []
    else
      var container := node.parent.value;
      var direct := Entry(container, node.name.value, n);
      if node.kind == ComponentName || node.kind == VariableName then
        [direct, Entry(t.nodes[container].parent.value, node.name.value, n)]
      else if node.kind == EnumMember then
        match EnumHoistTarget(t, container)
        case None => [direct]
        case Some(target) => [direct, Entry(target, node.name.value, n)]
      else [direct]
  }

  /**
   * A node below the root registers nothing unless it is named; then it is
   * registered first in its container, and at most once more, only when it
   * is a component name, a variable name or an enum member.
   */
  lemma NodeEntriesShape(t: Tree, n: NodeId)
    requires t.Valid() && n < |t.nodes|
    ensures var r := NodeEntries(t, n);
      && |r| <= 2
      && (r != [] <==> t.nodes[n].parent.Some? && HasName(t.nodes[n]))
      && (r != [] ==> r[0] == Entry(t.nodes[n].parent.value, t.nodes[n].name.value, n))
      && (forall e :: e in r ==> e.node == n && e.name == t.nodes[n].name.value)
      && (|r| == 2 ==> t.nodes[n].kind == ComponentName || t.nodes[n].kind == VariableName || t.nodes[n].kind == EnumMember)
  {
  }

  /** `processNode(node, document, scopes)`. */
  method ProcessNode(t: Tree, n: NodeId, scopes: Scopes)
    requires t.Valid() && n < |t.nodes|
    modifies scopes
    ensures scopes.entries == old(scopes.entries) + NodeEntries(t, n)
  {
    var node := t.nodes[n];
    if node.parent.Some? {
      var container := node.parent.value;
      if HasName(node) {
        var name := node.name.value;
        scopes.Add(container, name, n);
        if node.kind == ComponentName {
          scopes.Add(t.nodes[container].parent.value, name, n);
        } else if node.kind == VariableName {
          scopes.Add(t.nodes[container].parent.value, name, n);
        } else if node.kind == EnumMember {
          var parent: NodeId := container;
          while t.nodes[parent].parent.Some? && !IsScopeRoot(t.nodes[t.nodes[parent].parent.value].kind)
            invariant parent < |t.nodes|
            invariant ScopeRootAbove(t, parent) == ScopeRootAbove(t, container)
            decreases parent
          {
            parent := t.nodes[parent].parent.value;
          }
          if t.nodes[parent].parent.Some? {
            parent := t.nodes[parent].parent.value;
            if t.nodes[parent].kind == TypeDef {
              parent := t.nodes[parent].parent.value;
            }
            scopes.Add(parent, name, n);
          }
        }
      }
    }
  }

  /** What `processNode` appends for each of the nodes `1 .. hi - 1`, in traversal order. */
  function Visits(t: Tree, hi: nat): seq<seq<Entry>>
    requires t.Valid() && 1 <= hi <= |t.nodes|
  {
    seq(hi - 1, i requires 0 <= i < hi - 1 => NodeEntries(t, i + 1))
  }

  /** The precomputed scopes of a document. */
  function LocalScopes(t: Tree): seq<Entry>
    requires t.Valid()
  {
    Flatten(Visits(t, |t.nodes|))
  }

  /** `computeLocalScopes(document)`: every node below the root, in traversal order. */
  method ComputeLocalScopes(t: Tree) returns (scopes: Scopes)
    requires t.Valid()
    ensures fresh(scopes)
    ensures scopes.entries == LocalScopes(t)
  {
    scopes := new Scopes();
    for n := 1 to |t.nodes|
      invariant scopes.entries == Flatten(Visits(t, n))
    {
      ProcessNode(t, n, scopes);
      VisitsStep(t, n);
    }
  }

  lemma VisitsStep(t: Tree, n: NodeId)
    requires t.Valid() && 1 <= n < |t.nodes|
    ensures Flatten(Visits(t, n + 1)) == Flatten(Visits(t, n)) + NodeEntries(t, n)
  {
    assert Visits(t, n + 1) == Visits(t, n) + [NodeEntries(t, n)];
    FlattenSnoc(Visits(t, n), NodeEntries(t, n));
  }

  /** Some node of the chain `a` is a scope root. */
  predicate HasScopeRoot(t: Tree, a: seq<NodeId>)
  {
    exists i :: 0 <= i < |a| && a[i] < |t.nodes| && IsScopeRoot(t.nodes[a[i]].kind)
  }

  /** `a[k]` is the first node of the chain `a` whose kind is a scope root. */
  predicate FirstScopeRootAt(t: Tree, a: seq<NodeId>, k: int)
  {
    && 0 <= k < |a|
    && (forall j :: 0 <= j <= k ==> a[j] < |t.nodes|)
    && IsScopeRoot(t.nodes[a[k]].kind)
    && (forall j :: 0 <= j < k ==> !IsScopeRoot(t.nodes[a[j]].kind))
  }

  /** The loop finds the nearest strict container of `p` that is a scope root, and nothing when there is none. */
  lemma {:induction false} ScopeRootAboveIsNearest(t: Tree, p: NodeId)
    requires t.Valid() && p < |t.nodes|
    ensures ScopeRootAbove(t, p).None? <==> !HasScopeRoot(t, Ancestors(t, p))
    ensures ScopeRootAbove(t, p).Some? ==>
      exists k :: FirstScopeRootAt(t, Ancestors(t, p), k) && Ancestors(t, p)[k] == ScopeRootAbove(t, p).value
    decreases p
  {
    if p != 0 {
      var up := t.nodes[p].parent.value;
      var a := Ancestors(t, p);
      var a' := Ancestors(t, up);
      assert a == [up] + a';
      if IsScopeRoot(t.nodes[up].kind) {
        assert FirstScopeRootAt(t, a, 0);
      } else {
        ScopeRootAboveIsNearest(t, up);
        if ScopeRootAbove(t, up).Some? {
          var k :| FirstScopeRootAt(t, a', k) && a'[k] == ScopeRootAbove(t, up).value;
          assert FirstScopeRootAt(t, a, k + 1);
        }
      }
    }
  }

  /** Only one index of a chain can be its first scope root. */
  lemma FirstScopeRootUnique(t: Tree, a: seq<NodeId>, k: int, k': int)
    requires FirstScopeRootAt(t, a, k) && FirstScopeRootAt(t, a, k')
    ensures k == k'
  {
  }

  /**
   * The hoisting target of an enum member held by `container`: the nearest
   * scope root above `container`, or the container of that root when it is a
   * type definition; nothing when no scope root lies above.
   */
  lemma EnumHoistTargetIsNearest(t: Tree, container: NodeId)
    requires t.Valid() && container < |t.nodes|
    ensures var c := Ancestors(t, container);
      EnumHoistTarget(t, container).None? <==> !HasScopeRoot(t, c)
    ensures var c := Ancestors(t, container);
      forall k :: FirstScopeRootAt(t, c, k) ==>
        && (t.nodes[c[k]].kind == TypeDef ==> k + 1 < |c| && EnumHoistTarget(t, container) == Some(c[k + 1]))
        && (t.nodes[c[k]].kind != TypeDef ==> EnumHoistTarget(t, container) == Some(c[k]))
  {
    var c := Ancestors(t, container);
    ScopeRootAboveIsNearest(t, container);
    match ScopeRootAbove(t, container)
    case None =>
    case Some(root) =>
      var k0 :| FirstScopeRootAt(t, c, k0) && c[k0] == root;
      if t.nodes[root].kind == TypeDef {
        assert root != 0;
        assert k0 + 1 < |c|;
      }
      forall k | FirstScopeRootAt(t, c, k)
        ensures k == k0
      {
        FirstScopeRootUnique(t, c, k, k0);
      }
  }

  /**
   * A named enum member is registered a second time exactly when some
   * container above its own is a scope root, and then at the hoisting target;
   * otherwise it is registered only in its direct container.
   */
  lemma EnumMemberHoisting(t: Tree, m: NodeId)
    requires t.Valid() && m < |t.nodes|
    requires t.nodes[m].kind == EnumMember && t.nodes[m].parent.Some? && HasName(t.nodes[m])
    ensures var c := Ancestors(t, t.nodes[m].parent.value);
      |NodeEntries(t, m)| == 2 <==> HasScopeRoot(t, c)
    ensures var c := Ancestors(t, t.nodes[m].parent.value);
      !HasScopeRoot(t, c) ==> NodeEntries(t, m) == [Entry(t.nodes[m].parent.value, t.nodes[m].name.value, m)]
    ensures |NodeEntries(t, m)| == 2 ==>
      NodeEntries(t, m)[1] == Entry(EnumHoistTarget(t, t.nodes[m].parent.value).value, t.nodes[m].name.value, m)
  {
    EnumHoistTargetIsNearest(t, t.nodes[m].parent.value);
  }

  /** A component or variable name is also registered two levels up, in the container of its typing node. */
  lemma NameHoisting(t: Tree, n: NodeId)
    requires t.Valid() && n < |t.nodes|
    requires t.nodes[n].kind == ComponentName || t.nodes[n].kind == VariableName
    requires HasName(t.nodes[n])
    ensures |Ancestors(t, n)| >= 2
    ensures NodeEntries(t, n) ==
      [Entry(Ancestors(t, n)[0], t.nodes[n].name.value, n), Entry(Ancestors(t, n)[1], t.nodes[n].name.value, n)]
  {
    var container := t.nodes[n].parent.value;
    assert Ancestors(t, n) == [container] + Ancestors(t, container);
  }

  /** Every scope a node is registered in is one of its strict containers. */
  lemma EntriesInAncestors(t: Tree, n: NodeId)
    requires t.Valid() && n < |t.nodes|
    ensures forall e :: e in NodeEntries(t, n) ==> e.container in Ancestors(t, n)
  {
    var r := NodeEntries(t, n);
    NodeEntriesShape(t, n);
    if r != [] {
      var container := t.nodes[n].parent.value;
      var c := Ancestors(t, container);
      assert Ancestors(t, n) == [container] + c;
      assert r[0].container in Ancestors(t, n);
      if |r| == 2 {
        if t.nodes[n].kind == EnumMember {
          HoistedEnumMemberInAncestors(t, n);
        } else {
          NameHoisting(t, n);
        }
        assert r[1].container in Ancestors(t, n);
      }
      assert forall e :: e in r ==> e == r[0] || (|r| == 2 && e == r[1]);
    }
  }

  lemma HoistedEnumMemberInAncestors(t: Tree, n: NodeId)
    requires t.Valid() && n < |t.nodes|
    requires t.nodes[n].kind == EnumMember && |NodeEntries(t, n)| == 2
    ensures NodeEntries(t, n)[1].container in Ancestors(t, t.nodes[n].parent.value)
  {
    var container := t.nodes[n].parent.value;
    var c := Ancestors(t, container);
    var target := EnumHoistTarget(t, container);
    assert target.Some? && NodeEntries(t, n)[1].container == target.value;
    EnumHoistTargetIsNearest(t, container);
    var i :| 0 <= i < |c| && c[i] < |t.nodes| && IsScopeRoot(t.nodes[c[i]].kind);
    var k := FirstScopeRoot(t, c, i);
    if t.nodes[c[k]].kind == TypeDef {
      assert target.value == c[k + 1];
    } else {
      assert target.value == c[k];
    }
  }

  /** The first scope root of a chain that has one at or before `i`. */
  function FirstScopeRoot(t: Tree, c: seq<NodeId>, i: nat): (k: nat)
    requires forall j :: 0 <= j < |c| ==> c[j] < |t.nodes|
    requires i < |c| && IsScopeRoot(t.nodes[c[i]].kind)
    ensures k <= i && FirstScopeRootAt(t, c, k)
  {
    if forall j :: 0 <= j < i ==> !IsScopeRoot(t.nodes[c[j]].kind) then i
    else
      var j :| 0 <= j < i && IsScopeRoot(t.nodes[c[j]].kind);
      FirstScopeRoot(t, c, j)
  }

  /** What the visit of one node registers is in the precomputed scopes. */
  lemma VisitedEntry(t: Tree, n: NodeId, e: Entry)
    requires t.Valid() && 0 < n < |t.nodes| && e in NodeEntries(t, n)
    ensures e in LocalScopes(t)
  {
    var visits := Visits(t, |t.nodes|);
    assert visits[n - 1] == NodeEntries(t, n);
    FlattenComplete(visits, n - 1, e);
  }

  /** After the pass, every named node below the root is visible in its container. */
  lemma NamedNodesVisible(t: Tree)
    requires t.Valid()
    ensures forall n :: 0 < n < |t.nodes| && HasName(t.nodes[n]) ==>
      Entry(t.nodes[n].parent.value, t.nodes[n].name.value, n) in LocalScopes(t)
  {
    forall n | 0 < n < |t.nodes| && HasName(t.nodes[n])
      ensures Entry(t.nodes[n].parent.value, t.nodes[n].name.value, n) in LocalScopes(t)
    {
      NodeEntriesShape(t, n);
      VisitedEntry(t, n, NodeEntries(t, n)[0]);
    }
  }

  /** After the pass, a named enum member with a hoisting target is visible there. */
  lemma EnumMemberVisibleAtTarget(t: Tree, m: NodeId)
    requires t.Valid() && 0 < m < |t.nodes|
    requires t.nodes[m].kind == EnumMember && HasName(t.nodes[m])
    requires EnumHoistTarget(t, t.nodes[m].parent.value).Some?
    ensures Entry(EnumHoistTarget(t, t.nodes[m].parent.value).value, t.nodes[m].name.value, m) in LocalScopes(t)
  {
    var e := Entry(EnumHoistTarget(t, t.nodes[m].parent.value).value, t.nodes[m].name.value, m);
    assert NodeEntries(t, m)[1] == e;
    VisitedEntry(t, m, e);
  }

  /** After the pass, every scope a node is registered in is one of its strict containers. */
  lemma ScopesAreAncestors(t: Tree)
    requires t.Valid()
    ensures forall e :: e in LocalScopes(t) ==> 0 < e.node < |t.nodes| && e.container in Ancestors(t, e.node)
  {
    var visits := Visits(t, |t.nodes|);
    forall e | e in LocalScopes(t)
      ensures 0 < e.node < |t.nodes| && e.container in Ancestors(t, e.node)
    {
      var n := FlattenOrigin(visits, e) + 1;
      assert e in NodeEntries(t, n);
      NodeEntriesShape(t, n);
      EntriesInAncestors(t, n);
    }
  }

  /** The pass registers at most two descriptions per node below the root. */
  lemma LocalScopesSize(t: Tree)
    requires t.Valid()
    ensures |LocalScopes(t)| <= 2 * (|t.nodes| - 1)
  {
    var visits := Visits(t, |t.nodes|);
    forall i | 0 <= i < |visits|
      ensures |visits[i]| <= 2
    {
      NodeEntriesShape(t, i + 1);
    }
    FlattenLength(visits, 2);
  }
}
