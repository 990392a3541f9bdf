/**
 * `processEnumTypeDef`: the walk that registers the members of an enum type,
 * and of enum types nested in tuple and union types at any depth, under one
 * container. Both scope computations share it.
 */
module EnumScopes {
  import opened Wrappers
  import opened Ast

  /** `e` is the description of a named node, registered under `container`. */
  predicate Describes(t: Tree, e: Entry, container: NodeId)
  {
    && e.container == container
    && e.node < |t.nodes|
    && HasName(t.nodes[e.node])
    && e.name == t.nodes[e.node].name.value
  }

  /** The descriptions of the named nodes of `members`, in order, under `container`. */
  function MemberEntries(t: Tree, members: seq<NodeId>, container: NodeId): seq<Entry>
    requires forall i :: 0 <= i < |members| ==> members[i] < |t.nodes|
  {
    if members == [] then []
    else
      var m := members[|members| - 1];
      MemberEntries(t, members[..|members| - 1], container)
        + (if HasName(t.nodes[m]) then [Entry(container, t.nodes[m].name.value, m)] else [])
  }

  /** The member loop keeps exactly the named members, one entry each. */
  lemma {:induction false} MemberEntriesExactly(t: Tree, members: seq<NodeId>, container: NodeId)
    requires forall i :: 0 <= i < |members| ==> members[i] < |t.nodes|
    ensures |MemberEntries(t, members, container)| <= |members|
    ensures forall e :: e in MemberEntries(t, members, container) <==> e.node in members && Describes(t, e, container)
  {
    if members != [] {
      var front := members[..|members| - 1];
      MemberEntriesExactly(t, front, container);
      assert forall x :: x in members <==> x in front || x == members[|members| - 1];
    }
  }

  /**
   * `m` is a member of an enum type reached from the type node `n` by
   * descending through tuple and union element types.
   */
  predicate EnumMemberWithin(t: Tree, n: NodeId, m: NodeId)
    requires t.ChildrenAfter() && n < |t.nodes|
    decreases |t.nodes| - n
  {
    var node := t.nodes[n];
    if node.kind == EnumType then m in node.children
    else if IsIterableType(node.kind) then
      exists i :: 0 <= i < |node.children| && EnumMemberWithin(t, node.children[i], m)
    else false
  }

  /** What `processEnumTypeDef(n, container)` appends. */
  function EnumTypeEntries(t: Tree, n: NodeId, container: NodeId): seq<Entry>
    requires t.ChildrenAfter() && n < |t.nodes|
    decreases |t.nodes| - n, 1, 0
  {
    var node := t.nodes[n];
    if node.kind == EnumType then MemberEntries(t, node.children, container)
    else if IsIterableType(node.kind) then TypesEntries(t, n, |node.children|, container)
    else []
  }

  /** What the walk appends for the first `i` element types of the iterable type `n`. */
  function TypesEntries(t: Tree, n: NodeId, i: nat, container: NodeId): seq<Entry>
    requires t.ChildrenAfter() && n < |t.nodes| && i <= |t.nodes[n].children|
    decreases |t.nodes| - n, 0, i
  {
    if i == 0 then []
    else TypesEntries(t, n, i - 1, container) + EnumTypeEntries(t, t.nodes[n].children[i - 1], container)
  }

  /**
   * The walk registers exactly the named enum members reachable from `n`
   * through iterable types, each under `container`.
   */
  lemma {:induction false} EnumTypeEntriesExactly(t: Tree, n: NodeId, container: NodeId)
    requires t.ChildrenAfter() && n < |t.nodes|
    ensures forall e :: e in EnumTypeEntries(t, n, container) <==>
      Describes(t, e, container) && EnumMemberWithin(t, n, e.node)
    decreases |t.nodes| - n, 1, 0
  {
    var node := t.nodes[n];
    if node.kind == EnumType {
      MemberEntriesExactly(t, node.children, container);
    } else if IsIterableType(node.kind) {
      TypesEntriesExactly(t, n, |node.children|, container);
    }
  }

  lemma {:induction false} TypesEntriesExactly(t: Tree, n: NodeId, i: nat, container: NodeId)
    requires t.ChildrenAfter() && n < |t.nodes| && i <= |t.nodes[n].children|
    ensures forall e :: e in TypesEntries(t, n, i, container) <==>
      Describes(t, e, container) &&
      exists j :: 0 <= j < i && EnumMemberWithin(t, t.nodes[n].children[j], e.node)
    decreases |t.nodes| - n, 0, i
  {
    if i > 0 {
      var c := t.nodes[n].children;
      TypesEntriesExactly(t, n, i - 1, container);
      EnumTypeEntriesExactly(t, c[i - 1], container);
      forall e | Describes(t, e, container)
        ensures (exists j :: 0 <= j < i && EnumMemberWithin(t, c[j], e.node)) <==>
          (exists j :: 0 <= j < i - 1 && EnumMemberWithin(t, c[j], e.node)) || EnumMemberWithin(t, c[i - 1], e.node)
      {
      }
    }
  }

  /** The `for (const member of node.members)` loop of `processEnumTypeDef`. */
  method AddMembers(t: Tree, members: seq<NodeId>, container: NodeId, scopes: Scopes)
    requires forall i :: 0 <= i < |members| ==> members[i] < |t.nodes|
    modifies scopes
    ensures scopes.entries == old(scopes.entries) + MemberEntries(t, members, container)
  {
    for i := 0 to |members|
      invariant scopes.entries == old(scopes.entries) + MemberEntries(t, members[..i], container)
    {
      var member := members[i];
      assert members[..i + 1][..i] == members[..i];
      if HasName(t.nodes[member]) {
        scopes.Add(container, t.nodes[member].name.value, member);
      }
    }
    assert members[..|members|] == members;
  }

  /** `processEnumTypeDef(node, container)`, appending to `scopes` in place. */
  method ProcessEnumTypeDef(t: Tree, n: NodeId, container: NodeId, scopes: Scopes)
    requires t.ChildrenAfter() && n < |t.nodes|
    modifies scopes
    ensures scopes.entries == old(scopes.entries) + EnumTypeEntries(t, n, container)
    decreases |t.nodes| - n, 1
  {
    var node := t.nodes[n];
    if node.kind == EnumType {
      AddMembers(t, node.children, container, scopes);
    } else if IsIterableType(node.kind) {
      AddTypes(t, n, container, scopes);
    }
  }

  /** The `for (const subnode of node.types)` loop of `processEnumTypeDef`. */
  method AddTypes(t: Tree, n: NodeId, container: NodeId, scopes: Scopes)
    requires t.ChildrenAfter() && n < |t.nodes|
    modifies scopes
    ensures scopes.entries == old(scopes.entries) + TypesEntries(t, n, |t.nodes[n].children|, container)
    decreases |t.nodes| - n, 0
  {
    var types := t.nodes[n].children;
    for i := 0 to |types|
      invariant scopes.entries == old(scopes.entries) + TypesEntries(t, n, i, container)
    {
      assert TypesEntries(t, n, i + 1, container)
        == TypesEntries(t, n, i, container) + EnumTypeEntries(t, types[i], container);
      ProcessEnumTypeDef(t, types[i], container, scopes);
    }
  }
}
