/**
 * The operator legality guard of type-system/operators.ts, over the first
 * draft of the type model, where operand checks go through `isNumber`.
 */
module Operators {
  import opened Wrappers
  import opened Descriptions

  /** `x?.$type`: the tag of a present operand, nothing for an absent one. */
  function OptionalTag(x: Option<Type>): Option<string>
  {
    if x.Some? then Some(Tag(x.value)) else None
  }

  /** `isLegalOperation(operator, left, right?, last?)`; `last` is the else-branch of `?`. */
  function IsLegalOperation(op: string, left: Type, right: Option<Type>, last: Option<Type>): (r: bool)
  {
    if op in ["+", "-", "*", "/", "%", "**"] then
      if right.None? then IsNumber(left)
      else IsNumber(left) && IsNumber(right.value)
    else if op in ["!", "==", "!=", "&&", "||"] then
      if right.None? then (IsNumber(left) || Tag(left) == "char" || Tag(left) == "null")
      else
        (IsNumber(left) || Tag(left) == "char" || Tag(left) == "null") &&
        (IsNumber(right.value) || Tag(right.value) == "char" || Tag(right.value) == "null")
    else if right.Some? && op in ["<", ">", "<=", ">="] then
      (IsNumber(left) && IsNumber(right.value)) || (Tag(left) == "char" && Tag(right.value) == "char")
    else if op == "?" then
      IsNumber(left) && OptionalTag(right) == OptionalTag(last)
    else false
  }

  /** An operand of `!`, `==`, `!=`, `&&` and `||`. */
  predicate LogicalOperand(t: Type)
  {
    IsNumber(t) || t.Char? || t.Null?
  }

  lemma ArithmeticOperators(op: string, left: Type, right: Option<Type>, last: Option<Type>)
    requires op in ["+", "-", "*", "/", "%", "**"]
    ensures IsLegalOperation(op, left, right, last) <==>
      IsNumber(left) && (right.None? || IsNumber(right.value))
  {
  }

  lemma LogicalOperators(op: string, left: Type, right: Option<Type>, last: Option<Type>)
    requires op in ["!", "==", "!=", "&&", "||"]
    ensures IsLegalOperation(op, left, right, last) <==>
      LogicalOperand(left) && (right.None? || LogicalOperand(right.value))
  {
  }

  /** Relational operators need a right operand: both numbers, or both chars. */
  lemma RelationalOperators(op: string, left: Type, right: Option<Type>, last: Option<Type>)
    requires op in ["<", ">", "<=", ">="]
    ensures IsLegalOperation(op, left, right, last) <==>
      right.Some? && ((IsNumber(left) && IsNumber(right.value)) || (left.Char? && right.value.Char?))
    ensures !IsLegalOperation(op, left, None, last)
  {
  }

  /**
   * `?` needs a numeric condition and branches of the same tag; two absent
   * branches compare equal and are accepted, one absent branch is not.
   */
  lemma ConditionalOperator(cond: Type, right: Option<Type>, last: Option<Type>)
    ensures IsLegalOperation("?", cond, right, last) <==>
      IsNumber(cond) &&
      ((right.None? && last.None?) || (right.Some? && last.Some? && Tag(right.value) == Tag(last.value)))
    ensures IsLegalOperation("?", cond, None, None) <==> IsNumber(cond)
  {
  }

  lemma UnlistedOperatorsIllegal(op: string, left: Type, right: Option<Type>, last: Option<Type>)
    requires op !in ["+", "-", "*", "/", "%", "**", "!", "==", "!=", "&&", "||", "<", ">", "<=", ">=", "?"]
    ensures !IsLegalOperation(op, left, right, last)
  {
  }

  /** A number-only union is accepted by arithmetic; one containing a char is not. */
  lemma UnionOperands()
    ensures IsLegalOperation("+", Union([Int(None), Union([Real(None), Bool(None)])]), None, None)
    ensures !IsLegalOperation("*", Int(None), Some(Union([Int(None), Char(None)])), None)
  {
    var inner := Union([Real(None), Bool(None)]);
    assert IsNumber(inner.types[0]) && IsNumber(inner.types[1]);
    assert !IsNumber(Union([Int(None), Char(None)]).types[1]);
  }
}
