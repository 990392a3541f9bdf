/**
 * The operator legality guard of type-system/operator.ts, over the second
 * draft of the type model. Operands are checked by tag-set membership; a
 * union operand is checked through `isUnionSubsetOf`.
 */
module Operator {
  import opened Wrappers
  import opened Description

  const Numeric: seq<string> := ["int", "real", "bool"]
  const Comparable: seq<string> := ["int", "real", "bool", "char", "null", "enum", "list", "tuple"]

  /**
   * As written: empty `items` give false; otherwise `every` runs a callback
   * whose block body has no `return`, so it yields `undefined` for the first
   * member and `every` holds only when there are no members.
   */
  function IsUnionSubsetOf(u: Type, items: seq<string>): (r: bool)
    requires u.Union?
  {
    if |items| == 0 then false
    else |u.types| == 0
  }

  function IsSubsetOf(t: Type, items: seq<string>): (r: bool)
  {
    Tag(t) in items || (Tag(t) == "union" && IsUnionSubsetOf(t, items))
  }

  /** `isLegalOperation(operator, left, right?, third?)`; the third operand is never read. */
  function IsLegalOperation(op: string, left: Type, right: Option<Type>, third: Option<Type>): (r: bool)
  {
    if op == "+" || op == "-" then
      if right.None? then IsSubsetOf(left, Numeric)
      else IsSubsetOf(left, Numeric) && IsSubsetOf(right.value, Numeric)
    else if op in ["**", "*", "/", "%"] then
      right.Some? && IsSubsetOf(left, Numeric) && IsSubsetOf(right.value, Numeric)
    else if op in ["==", "!=", "&&", "||"] then
      right.Some? && IsSubsetOf(left, Comparable) && IsSubsetOf(right.value, Comparable)
    else if op in ["<", ">", "<=", "<="] then
      right.Some? &&
      ((IsSubsetOf(left, Numeric) && IsSubsetOf(right.value, Numeric))
       || (Tag(left) == "char" && Tag(right.value) == "char"))
    else if op == "!" then
      right.None? && IsSubsetOf(left, Comparable)
    else false
  }

  /** `isSubsetOf` accepts a listed tag, or a memberless union when `items` is non-empty. */
  lemma SubsetOfByVariant(t: Type, items: seq<string>)
    ensures IsSubsetOf(t, items) <==> Tag(t) in items || (t.Union? && t.types == [] && items != [])
  {
  }

  /** A union with members is never accepted through the union path. */
  lemma NonEmptyUnionNeverSubset(u: Type, items: seq<string>)
    requires u.Union? && u.types != []
    ensures !IsUnionSubsetOf(u, items)
    ensures !IsUnionSubsetOf(Union([Int(None)]), ["int"])
  {
  }

  /** An operand `+`, `-` and the other arithmetic operators accept. */
  predicate NumericOperand(t: Type)
  {
    t.Int? || t.Real? || t.Bool? || t == Union([])
  }

  /** An operand `==`, `!=`, `&&`, `||` and `!` accept. */
  predicate ComparableOperand(t: Type)
  {
    t.Int? || t.Real? || t.Bool? || t.Char? || t.Null? || t.Enum? || t.List? || t.Tuple? || t == Union([])
  }

  lemma AdditiveOperators(op: string, left: Type, right: Option<Type>, third: Option<Type>)
    requires op == "+" || op == "-"
    ensures IsLegalOperation(op, left, right, third) <==>
      NumericOperand(left) && (right.None? || NumericOperand(right.value))
    ensures !IsLegalOperation(op, Char(None), right, third)
  {
  }

  lemma MultiplicativeOperators(op: string, left: Type, right: Option<Type>, third: Option<Type>)
    requires op in ["**", "*", "/", "%"]
    ensures IsLegalOperation(op, left, right, third) <==>
      right.Some? && NumericOperand(left) && NumericOperand(right.value)
  {
  }

  lemma EqualityLogicalOperators(op: string, left: Type, right: Option<Type>, third: Option<Type>)
    requires op in ["==", "!=", "&&", "||"]
    ensures IsLegalOperation(op, left, right, third) <==>
      right.Some? && ComparableOperand(left) && ComparableOperand(right.value)
    ensures (left.Struct? || left.Func? || left.Port? || left.Interface? || left.Abstract?
             || left.LoopVariable? || left.Error?) ==> !IsLegalOperation(op, left, right, third)
  {
  }

  lemma RelationalOperators(op: string, left: Type, right: Option<Type>, third: Option<Type>)
    requires op in ["<", ">", "<="]
    ensures IsLegalOperation(op, left, right, third) <==>
      right.Some? &&
      ((NumericOperand(left) && NumericOperand(right.value)) || (left.Char? && right.value.Char?))
  {
  }

  lemma NegationOperator(left: Type, right: Option<Type>, third: Option<Type>)
    ensures IsLegalOperation("!", left, right, third) <==> right.None? && ComparableOperand(left)
  {
  }

  /** `>=` is not in the relational list, so it is illegal whatever the operands. */
  lemma GreaterEqualAlwaysIllegal(left: Type, right: Option<Type>, third: Option<Type>)
    ensures !IsLegalOperation(">=", left, right, third)
    ensures !IsLegalOperation(">=", Int(None), Some(Int(None)), None)
  {
  }

  /** Every operator outside the listed ones is illegal, and the third operand never matters. */
  lemma UnlistedOperatorsIllegal(op: string, left: Type, right: Option<Type>, third: Option<Type>, other: Option<Type>)
    ensures op !in ["+", "-", "**", "*", "/", "%", "==", "!=", "&&", "||", "<", ">", "<=", "!"] ==>
      !IsLegalOperation(op, left, right, third)
    ensures IsLegalOperation(op, left, right, third) == IsLegalOperation(op, left, right, other)
  {
  }

  /** The evidently intended `isUnionSubsetOf`: every member is listed or is itself such a union. */
  function IsUnionSubsetOfFixed(u: Type, items: seq<string>): (r: bool)
    requires u.Union?
    decreases u, 0
  {
    if |items| == 0 then false
    else forall i | 0 <= i < |u.types| :: MemberListed(u.types[i], items)
  }

  /** The callback `isUnionSubsetOf` evidently meant to return for each member. */
  predicate MemberListed(m: Type, items: seq<string>)
    decreases m, 1
  {
    (!m.Union? && Tag(m) in items) || (m.Union? && IsUnionSubsetOfFixed(m, items))
  }

  function IsSubsetOfFixed(t: Type, items: seq<string>): (r: bool)
  {
    Tag(t) in items || (Tag(t) == "union" && IsUnionSubsetOfFixed(t, items))
  }

  /** Every flattened alternative of the union carries a listed tag. */
  predicate LeafTagsIn(ls: seq<Type>, items: seq<string>)
  {
    forall k | 0 <= k < |ls| :: Tag(ls[k]) in items
  }

  lemma LeafTagsInConcat(a: seq<Type>, b: seq<Type>, items: seq<string>)
    ensures LeafTagsIn(a + b, items) <==> LeafTagsIn(a, items) && LeafTagsIn(b, items)
  {
    assert forall k | 0 <= k < |a| :: (a + b)[k] == a[k];
    assert forall k | 0 <= k < |b| :: (a + b)[|a| + k] == b[k];
    if LeafTagsIn(a, items) && LeafTagsIn(b, items) {
      forall k | 0 <= k < |a + b| ensures Tag((a + b)[k]) in items {
        if k >= |a| { assert (a + b)[k] == b[k - |a|]; }
      }
    }
  }

  /** The corrected check accepts a union exactly when all its flattened alternatives are listed. */
  lemma {:induction false} UnionSubsetFixedByLeaves(u: Type, items: seq<string>)
    requires u.Union? && items != []
    ensures IsUnionSubsetOfFixed(u, items) <==> LeafTagsIn(Leaves(u), items)
    ensures IsUnionSubsetOfFixed(Union([Int(None)]), ["int"])
    decreases u, 1
  {
    assert Leaves(u) == LeavesFrom(u, 0);
    FixedLeavesFrom(u, 0, items);
    assert LeafTagsIn(Leaves(Union([Int(None)]).types[0]), ["int"]);
  }

  /**
   * The corrected check accepts a union exactly when each flattened
   * alternative, none of them a union, passes the plain subset test.
   */
  lemma UnionSubsetFixedByLeafSubsets(u: Type, items: seq<string>)
    requires u.Union? && items != []
    ensures forall k | 0 <= k < |Leaves(u)| :: !Leaves(u)[k].Union?
    ensures IsUnionSubsetOfFixed(u, items) <==>
      forall k | 0 <= k < |Leaves(u)| :: IsSubsetOfFixed(Leaves(u)[k], items)
  {
    LeavesAreNotUnions(u);
    UnionSubsetFixedByLeaves(u, items);
  }

  lemma {:induction false} FixedLeavesFrom(u: Type, i: nat, items: seq<string>)
    requires u.Union? && i <= |u.types| && items != []
    ensures (forall j | i <= j < |u.types| :: MemberListed(u.types[j], items))
            <==> LeafTagsIn(LeavesFrom(u, i), items)
    decreases u, 0, |u.types| - i
  {
    if i < |u.types| {
      var m := u.types[i];
      if m.Union? {
        UnionSubsetFixedByLeaves(m, items);
      } else {
        assert Leaves(m) == [m];
        assert LeafTagsIn([m], items) <==> Tag([m][0]) in items;
      }
      assert MemberListed(m, items) <==> LeafTagsIn(Leaves(m), items);
      FixedLeavesFrom(u, i + 1, items);
      LeafTagsInConcat(Leaves(m), LeavesFrom(u, i + 1), items);
    }
  }

  /** The evidently intended guard: `>=` joins the relational operators and unions are checked member-wise. */
  function IsLegalOperationFixed(op: string, left: Type, right: Option<Type>, third: Option<Type>): (r: bool)
  {
    if op == "+" || op == "-" then
      if right.None? then IsSubsetOfFixed(left, Numeric)
      else IsSubsetOfFixed(left, Numeric) && IsSubsetOfFixed(right.value, Numeric)
    else if op in ["**", "*", "/", "%"] then
      right.Some? && IsSubsetOfFixed(left, Numeric) && IsSubsetOfFixed(right.value, Numeric)
    else if op in ["==", "!=", "&&", "||"] then
      right.Some? && IsSubsetOfFixed(left, Comparable) && IsSubsetOfFixed(right.value, Comparable)
    else if op in ["<", ">", "<=", ">="] then
      right.Some? &&
      ((IsSubsetOfFixed(left, Numeric) && IsSubsetOfFixed(right.value, Numeric))
       || (Tag(left) == "char" && Tag(right.value) == "char"))
    else if op == "!" then
      right.None? && IsSubsetOfFixed(left, Comparable)
    else false
  }

  lemma SubsetOfNonUnion(t: Type, items: seq<string>)
    requires !t.Union?
    ensures IsSubsetOfFixed(t, items) <==> Tag(t) in items
    ensures IsSubsetOf(t, items) <==> Tag(t) in items
  {
  }

  /** With the corrections, `>=` behaves as the other relational operators do. */
  lemma FixedRelationalOperators(op: string, left: Type, right: Type, third: Option<Type>)
    requires op in ["<", ">", "<=", ">="]
    requires !left.Union? && !right.Union?
    ensures IsLegalOperationFixed(op, left, Some(right), third) <==>
      (NumericOperand(left) && NumericOperand(right)) || (left.Char? && right.Char?)
    ensures IsLegalOperationFixed(">=", Int(None), Some(Int(None)), None)
  {
    SubsetOfNonUnion(left, Numeric);
    SubsetOfNonUnion(right, Numeric);
    SubsetOfNonUnion(Int(None), Numeric);
  }

  /** On operands that are not unions, the corrected guard differs from the written one only at `>=`. */
  lemma FixedAgreesOffGreaterEqual(op: string, left: Type, right: Option<Type>, third: Option<Type>)
    requires op != ">="
    requires !left.Union? && (right.Some? ==> !right.value.Union?)
    ensures IsLegalOperationFixed(op, left, right, third) == IsLegalOperation(op, left, right, third)
  {
    SubsetOfNonUnion(left, Numeric);
    SubsetOfNonUnion(left, Comparable);
    if right.Some? {
      SubsetOfNonUnion(right.value, Numeric);
      SubsetOfNonUnion(right.value, Comparable);
    }
  }

  /** With the corrections, a union of numbers is a legal operand of `+`. */
  lemma FixedAcceptsNumericUnion()
    ensures IsLegalOperationFixed("+", Union([Int(None), Real(None)]), None, None)
    ensures !IsLegalOperation("+", Union([Int(None), Real(None)]), None, None)
  {
    assert IsSubsetOfFixed(Union([Int(None), Real(None)]), Numeric);
  }
}
