/**
 * The parsed document as an arena of nodes, and the multi-valued scope
 * table that the scope computation fills.
 *
 * Node ids are positions in the pre-order walk of the document that
 * `streamAllContents` performs: node 0 is the Program root, a node's container
 * always has a smaller id than the node, the node after `n` is a child of `n`
 * or of one of `n`'s containers, and children are listed in increasing order.
 * Each node keeps the id of its container
 * (`$container`) and the ids of the children the scope code walks: the
 * members of an enum type, the element types of a tuple or union type, and
 * the declared type of a type definition (its first child).
 */
module Ast {
  import opened Wrappers

  type NodeId = nat

  /** The AST node kinds the scope computation tests for; every other kind is `Other`. */
  datatype Kind =
    | Program | TypeDef | Function | Automaton | System | LoopStatement | FunctionLoopStatement
    | ComponentTyping | ComponentName | VariableTyping | MultipleVariableTyping | VariableName
    | EnumType | EnumMember | TupleType | UnionType | StructType | ListType | Other

  datatype Node = Node(kind: Kind, name: Option<string>, parent: Option<NodeId>, children: seq<NodeId>)

  datatype Tree = Tree(nodes: seq<Node>)
  {
    /**
     * A well-formed document: a Program root without container, every other
     * node contained by an earlier node, children listed by their container
     * and placed after it, ids in pre-order, and a component or variable name
     * never held directly by the root (the grammar wraps each in a typing node).
     */
    predicate Valid()
    {
      && |nodes| > 0
      && nodes[0].kind == Program
      && nodes[0].parent.None?
      && (forall n :: 0 < n < |nodes| ==> nodes[n].parent.Some? && nodes[n].parent.value < n)
      && ChildrenAfter()
      && PreOrder()
      && (forall n, i :: 0 <= n < |nodes| && 0 <= i < |nodes[n].children| ==>
            nodes[nodes[n].children[i]].parent == Some(n))
      && (forall n :: 0 < n < |nodes| && (nodes[n].kind == ComponentName || nodes[n].kind == VariableName) ==>
            nodes[n].parent != Some(0))
    }

    /** `a` is a container of `m`, directly or through further containers. */
    predicate Encloses(a: NodeId, m: NodeId)
      decreases m
    {
      && m < |nodes|
      && nodes[m].parent.Some?
      && nodes[m].parent.value < m
      && (nodes[m].parent.value == a || Encloses(a, nodes[m].parent.value))
    }

    /**
     * Node `n` is where a pre-order walk puts it: its children are listed in
     * increasing order, and unless it is the root it is a child of node
     * `n - 1` or of one of that node's containers.
     */
    predicate InWalkOrder(n: NodeId)
      requires n < |nodes|
    {
      && (forall i, j :: 0 <= i < j < |nodes[n].children| ==> nodes[n].children[i] < nodes[n].children[j])
      && (n > 0 ==>
            nodes[n].parent.Some? && (nodes[n].parent.value == n - 1 || Encloses(nodes[n].parent.value, n - 1)))
    }

    /** Ids follow a pre-order walk: every node below `k` is in walk order. */
    predicate PreOrderBelow(k: nat)
      requires k <= |nodes|
    {
      k == 0 || (PreOrderBelow(k - 1) && InWalkOrder(k - 1))
    }

    predicate PreOrder()
    {
      PreOrderBelow(|nodes|)
    }

    /** Every child is a node placed after its container. */
    predicate ChildrenAfter()
    {
      forall n, i :: 0 <= n < |nodes| && 0 <= i < |nodes[n].children| ==> n < nodes[n].children[i] < |nodes|
    }
  }

  lemma {:induction false} PreOrderAt(t: Tree, k: nat, n: NodeId)
    requires k <= |t.nodes| && t.PreOrderBelow(k) && n < k
    ensures t.InWalkOrder(n)
    decreases k
  {
    if n < k - 1 {
      PreOrderAt(t, k - 1, n);
    }
  }

  lemma {:induction false} EnclosesTrans(t: Tree, a: NodeId, b: NodeId, c: NodeId)
    requires t.Encloses(a, b) && t.Encloses(b, c)
    ensures t.Encloses(a, c)
    decreases c
  {
    var p := t.nodes[c].parent.value;
    if p != b {
      EnclosesTrans(t, a, b, p);
    }
  }

  /**
   * The nodes of a subtree have contiguous ids: every id between a node and
   * one of its descendants belongs to a descendant of the node too, so a
   * container's descendants are visited before anything that follows them.
   */
  lemma {:induction false} SubtreeContiguous(t: Tree, a: NodeId, x: NodeId, m: NodeId)
    requires t.Valid() && t.Encloses(a, x) && a < m < x
    ensures t.Encloses(a, m)
    decreases x
  {
    var p := t.nodes[x].parent.value;
    PreOrderAt(t, |t.nodes|, x);
    assert t.Encloses(a, x - 1) by {
      if p == x - 1 {
        assert p != a;
      } else {
        assert t.Encloses(p, x - 1);
        if p != a {
          EnclosesTrans(t, a, p, x - 1);
        }
      }
    }
    if m < x - 1 {
      SubtreeContiguous(t, a, x - 1, m);
    }
  }

  /**
   * Two type definitions `A` and `B` under the Program, `A` declaring an enum
   * with member `X`, numbered breadth-first: `X` gets an id after `B` although
   * the walk visits it before `B`.
   */
  const BreadthFirst := Tree([
    Node(Program, None, None, [1, 2]),
    Node(TypeDef, Some("A"), Some(0), [3]),
    Node(TypeDef, Some("B"), Some(0), []),
    Node(EnumType, None, Some(1), [4]),
    Node(EnumMember, Some("X"), Some(3), [])
  ])

  /** Breadth-first ids are not walk order: node 3 belongs to `A`, which node 2 has already left. */
  lemma BreadthFirstRejected()
    ensures !BreadthFirst.Valid()
  {
    var t := BreadthFirst;
    assert !t.Encloses(1, 2) by {
      assert !t.Encloses(1, 0);
    }
    assert !t.InWalkOrder(3);
    if t.Valid() {
      PreOrderAt(t, |t.nodes|, 3);
    }
  }

  /** The name provider yields `name`; JavaScript treats a missing or empty name as absent. */
  predicate HasName(node: Node)
  {
    node.name.Some? && node.name.value != ""
  }

  /** The grammar's iterable types, whose `types` are walked for nested enums. */
  predicate IsIterableType(k: Kind)
  {
    k == TupleType || k == UnionType
  }

  /** The containers of `p`, nearest first, ending at the root. */
  function Ancestors(t: Tree, p: NodeId): (a: seq<NodeId>)
    requires t.Valid() && p < |t.nodes|
    ensures |a| == 0 <==> p == 0
    ensures forall i :: 0 <= i < |a| ==> a[i] < p
    ensures |a| > 0 ==> t.nodes[p].parent == Some(a[0]) && a[|a| - 1] == 0
    ensures forall i :: 0 < i < |a| ==> t.nodes[a[i - 1]].parent == Some(a[i])
    decreases p
  {
    if p == 0 then [] else
      var up := t.nodes[p].parent.value;
      [up] + Ancestors(t, up)
  }

  /** One description in the precomputed scopes: `name` for `node`, visible in `container`. */
  datatype Entry = Entry(container: NodeId, name: string, node: NodeId)

  /** `PrecomputedScopes`, a multi-map from containers to descriptions, in insertion order. */
  class Scopes {
    var entries: seq<Entry>

    constructor()
      ensures entries == []
    {
      entries := [];
    }

    method Add(container: NodeId, name: string, node: NodeId)
      modifies this
      ensures entries == old(entries) + [Entry(container, name, node)]
    {
      entries := entries + [Entry(container, name, node)];
    }
  }

  /** The entry lists of `parts`, concatenated in order: what a pass appends, node by node. */
  function Flatten(parts: seq<seq<Entry>>): seq<Entry>
  {
    if parts == [] then [] else Flatten(parts[..|parts| - 1]) + parts[|parts| - 1]
  }

  lemma FlattenSnoc(parts: seq<seq<Entry>>, last: seq<Entry>)
    ensures Flatten(parts + [last]) == Flatten(parts) + last
  {
    assert (parts + [last])[..|parts|] == parts;
  }

  /** Every entry of every part is in the concatenation. */
  lemma {:induction false} FlattenComplete(parts: seq<seq<Entry>>, i: nat, e: Entry)
    requires i < |parts| && e in parts[i]
    ensures e in Flatten(parts)
  {
    if i < |parts| - 1 {
      FlattenComplete(parts[..|parts| - 1], i, e);
    }
  }

  /** The part an entry of the concatenation comes from. */
  function FlattenOrigin(parts: seq<seq<Entry>>, e: Entry): (i: nat)
    requires e in Flatten(parts)
    ensures i < |parts| && e in parts[i]
  {
    if e in parts[|parts| - 1] then |parts| - 1 else FlattenOrigin(parts[..|parts| - 1], e)
  }

  /** Parts of at most `bound` entries concatenate to at most `bound` entries per part. */
  lemma {:induction false} FlattenLength(parts: seq<seq<Entry>>, bound: nat)
    requires forall i :: 0 <= i < |parts| ==> |parts[i]| <= bound
    ensures |Flatten(parts)| <= bound * |parts|
  {
    if parts != [] {
      FlattenLength(parts[..|parts| - 1], bound);
      assert bound * |parts| == bound * (|parts| - 1) + bound;
    }
  }
}
