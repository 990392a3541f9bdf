/**
 * The scope computation of mediator-scope-provider.ts: every named node is
 * registered in its container, and the enum members of a type definition
 * held directly by the Program are registered in the Program as well.
 */
module MediatorScopeProvider {
  import opened Wrappers
  import opened Ast
  import opened EnumScopes

  /** `isTypeDef(node) && isProgram(container)`. */
  predicate HoistsEnums(t: Tree, n: NodeId)
    requires t.Valid() && n < |t.nodes|
  {
    && t.nodes[n].kind == TypeDef
    && t.nodes[n].parent.Some?
    && t.nodes[t.nodes[n].parent.value].kind == Program
  }

  /** What `processNode(n)` appends to the scopes; a type definition's declared type is its first child. */
  function NodeEntries(t: Tree, n: NodeId): (r: seq<Entry>)
    requires t.Valid() && n < |t.nodes|
  {
    var node := t.nodes[n];
    (if node.parent.Some? && HasName(node) then [Entry(node.parent.value, node.name.value, n)] else [])
    + (if HoistsEnums(t, n) && |node.children| > 0 then EnumTypeEntries(t, node.children[0], node.parent.value) else [])
  }

  /** `processNode(node, document, scopes)`. */
  method ProcessNode(t: Tree, n: NodeId, scopes: Scopes)
    requires t.Valid() && n < |t.nodes|
    modifies scopes
    ensures scopes.entries == old(scopes.entries) + NodeEntries(t, n)
  {
    var node := t.nodes[n];
    if node.parent.Some? {
      if HasName(node) {
        scopes.Add(node.parent.value, node.name.value, n);
      }
    }
    if node.kind == TypeDef && node.parent.Some? && t.nodes[node.parent.value].kind == Program {
      if |node.children| > 0 {
        ProcessEnumTypeDef(t, node.children[0], node.parent.value, scopes);
      }
    }
  }

  /** What `processNode` appends for each of the nodes `1 .. hi - 1`, in traversal order. */
  function Visits(t: Tree, hi: nat): seq<seq<Entry>>
    requires t.Valid() && 1 <= hi <= |t.nodes|
  {
    seq(hi - 1, i requires 0 <= i < hi - 1 => NodeEntries(t, i + 1))
  }

  /** The precomputed scopes of a document. */
  function LocalScopes(t: Tree): seq<Entry>
    requires t.Valid()
  {
    Flatten(Visits(t, |t.nodes|))
  }

  /** The inherited `computeLocalScopes(document)`: `processNode` on every node below the root, in traversal order. */
  method ComputeLocalScopes(t: Tree) returns (scopes: Scopes)
    requires t.Valid()
    ensures fresh(scopes)
    ensures scopes.entries == LocalScopes(t)
  {
    scopes := new Scopes();
    for n := 1 to |t.nodes|
      invariant scopes.entries == Flatten(Visits(t, n))
    {
      ProcessNode(t, n, scopes);
      VisitsStep(t, n);
    }
  }

  lemma VisitsStep(t: Tree, n: NodeId)
    requires t.Valid() && 1 <= n < |t.nodes|
    ensures Flatten(Visits(t, n + 1)) == Flatten(Visits(t, n)) + NodeEntries(t, n)
  {
    assert Visits(t, n + 1) == Visits(t, n) + [NodeEntries(t, n)];
    FlattenSnoc(Visits(t, n), NodeEntries(t, n));
  }

  /**
   * A node is registered in its container when it is named, and a type
   * definition held by the Program also registers, in the Program, exactly
   * the named enum members reachable from its declared type through tuple
   * and union types.
   */
  lemma NodeEntriesExactly(t: Tree, n: NodeId)
    requires t.Valid() && n < |t.nodes|
    ensures forall e :: e in NodeEntries(t, n) <==>
      || (t.nodes[n].parent.Some? && HasName(t.nodes[n]) && e == Entry(t.nodes[n].parent.value, t.nodes[n].name.value, n))
      || (HoistsEnums(t, n) && |t.nodes[n].children| > 0 &&
          Describes(t, e, t.nodes[n].parent.value) && EnumMemberWithin(t, t.nodes[n].children[0], e.node))
  {
    var node := t.nodes[n];
    if HoistsEnums(t, n) && |node.children| > 0 {
      EnumTypeEntriesExactly(t, node.children[0], node.parent.value);
    }
  }

  /** What the visit of one node registers is in the precomputed scopes. */
  lemma VisitedEntry(t: Tree, n: NodeId, e: Entry)
    requires t.Valid() && 0 < n < |t.nodes| && e in NodeEntries(t, n)
    ensures e in LocalScopes(t)
  {
    var visits := Visits(t, |t.nodes|);
    assert visits[n - 1] == NodeEntries(t, n);
    FlattenComplete(visits, n - 1, e);
  }

  /** After the pass, every named node below the root is visible in its container. */
  lemma NamedNodesVisible(t: Tree)
    requires t.Valid()
    ensures forall n :: 0 < n < |t.nodes| && HasName(t.nodes[n]) ==>
      Entry(t.nodes[n].parent.value, t.nodes[n].name.value, n) in LocalScopes(t)
  {
    forall n | 0 < n < |t.nodes| && HasName(t.nodes[n])
      ensures Entry(t.nodes[n].parent.value, t.nodes[n].name.value, n) in LocalScopes(t)
    {
      var e := Entry(t.nodes[n].parent.value, t.nodes[n].name.value, n);
      assert e in NodeEntries(t, n);
      VisitedEntry(t, n, e);
    }
  }

  /**
   * After the pass, every named enum member reachable from the declared type
   * of a type definition held by the Program is visible in the Program.
   */
  lemma TopLevelEnumMembersVisible(t: Tree, n: NodeId, m: NodeId)
    requires t.Valid() && 0 < n < |t.nodes| && m < |t.nodes|
    requires HoistsEnums(t, n) && |t.nodes[n].children| > 0
    requires EnumMemberWithin(t, t.nodes[n].children[0], m) && HasName(t.nodes[m])
    ensures Entry(t.nodes[n].parent.value, t.nodes[m].name.value, m) in LocalScopes(t)
  {
    TopLevelEnumMemberRegistered(t, n, m);
    VisitedEntry(t, n, Entry(t.nodes[n].parent.value, t.nodes[m].name.value, m));
  }

  /** The visit of the type definition registers the enum member in the Program. */
  lemma TopLevelEnumMemberRegistered(t: Tree, n: NodeId, m: NodeId)
    requires t.Valid() && n < |t.nodes| && m < |t.nodes|
    requires HoistsEnums(t, n) && |t.nodes[n].children| > 0
    requires EnumMemberWithin(t, t.nodes[n].children[0], m) && HasName(t.nodes[m])
    ensures Entry(t.nodes[n].parent.value, t.nodes[m].name.value, m) in NodeEntries(t, n)
  {
    NodeEntriesExactly(t, n);
    assert Describes(t, Entry(t.nodes[n].parent.value, t.nodes[m].name.value, m), t.nodes[n].parent.value);
  }
}
