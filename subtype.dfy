/**
 * The structural subtype relation of type-system/subtype.ts over the first
 * draft of the type model. The decision recurses on the shape of `to`; every
 * recursive call is on a component of `from`, of `to`, or of both.
 */
module Subtype {
  import opened Wrappers
  import opened Descriptions

  /** JavaScript's `array1.every(v => array2.includes(v))`, checked front to back. */
  function ArrayContainedIn<T(==)>(a: seq<T>, b: seq<T>): (r: bool)
    ensures r <==> forall x :: x in a ==> x in b
  {
    if |a| == 0 then true
    else a[0] in b && ArrayContainedIn(a[1..], b)
  }

  /** JavaScript's `Array.prototype.indexOf`: the first position of `x`, or -1. */
  function IndexOf<T(==)>(s: seq<T>, x: T): (i: int)
    ensures -1 <= i && (i == -1 <==> x !in s)
    ensures 0 <= i ==> i < |s| && s[i] == x && forall j | 0 <= j < i :: s[j] != x
  {
    if |s| == 0 then -1
    else if s[0] == x then 0
    else var k := IndexOf(s[1..], x); if k == -1 then -1 else k + 1
  }

  /** The type a struct gives to a field name, taken at its first occurrence. */
  function FieldType(s: Type, name: string): (r: Option<Type>)
    requires s.Struct? && WellFormed(s)
    ensures r.Some? <==> name in s.fields
    ensures r.Some? ==> r.value in s.fieldTypes
    ensures r.Some? ==>
      exists k | 0 <= k < |s.fields| :: s.fields[k] == name && name !in s.fields[..k] && r.value == s.fieldTypes[k]
  {
    var k := IndexOf(s.fields, name);
    if k == -1 then None
    else
      assert name !in s.fields[..k];
      Some(s.fieldTypes[k])
  }

  function IsSubtypeOf(from: Type, to: Type): (r: bool)
    requires WellFormed(from) && WellFormed(to)
    decreases from, to
  {
    if to.Null? then from.Null?
    else if to.Char? then from.Char?
    else if to.Int? then from.Int? || from.Bool?
    else if to.Bool? || to.Real? then from.Int? || from.Real? || from.Char? || from.Bool?
    else if to.Enum? then
      // the members of `from` must all be members of `to`
      from.Enum? && |from.members| <= |to.members| && ArrayContainedIn(from.members, to.members)
    else if to.Struct? then
      // the fields of `to` must all be fields of `from`, each with a subtype
      from.Struct? && |from.fields| >= |to.fields| && ArrayContainedIn(to.fields, from.fields)
      && forall i | 0 <= i < |to.fields| ::
           IsSubtypeOf(from.fieldTypes[IndexOf(from.fields, to.fields[i])], to.fieldTypes[i])
    else if to.List? then
      if from.List? then
        if to.capacity.None? then from.capacity.None? && IsSubtypeOf(from.base, to.base)
        else if from.capacity.None? then IsSubtypeOf(from.base, to.base)
        else if from.capacity.value.IntLit? && to.capacity.value.IntLit? then
          from.capacity.value.value >= to.capacity.value.value && IsSubtypeOf(from.base, to.base)
        else IsSubtypeOf(from.base, to.base)
      else false
    else if to.Tuple? then
      from.Tuple? && |from.types| == |to.types|
      && forall i | 0 <= i < |from.types| :: IsSubtypeOf(from.types[i], to.types[i])
    else if to.Union? then
      if from.Union? then forall i | 0 <= i < |from.types| :: IsSubtypeOf(from.types[i], to)
      else exists i | 0 <= i < |to.types| :: IsSubtypeOf(from, to.types[i])
    else if to.Abstract? then from.Abstract?
    else if to.Port? then
      from.Port? && from.direction == to.direction && IsSubtypeOf(from.valueType, to.valueType)
    else if to.Function? then
      from.Function? && |from.paramsType| == |to.paramsType|
      && IsSubtypeOf(from.returnType, to.returnType)
      && forall i | 0 <= i < |from.paramsType| :: IsSubtypeOf(from.paramsType[i], to.paramsType[i])
    else if to.Automaton? then
      // port matching is not implemented: equal port counts suffice
      from.Automaton? && |from.ports| == |to.ports|
    else
      // only the error type is left
      Tag(from) == Tag(to)
  }

  /** The scalar targets and what each admits. */
  lemma ScalarTargets(from: Type, lit: Option<NodeRef>)
    requires WellFormed(from)
    ensures IsSubtypeOf(from, Null) <==> from.Null?
    ensures IsSubtypeOf(from, Char(lit)) <==> from.Char?
    ensures IsSubtypeOf(from, Int(lit)) <==> from.Int? || from.Bool?
    ensures IsSubtypeOf(from, Bool(lit)) <==> from.Int? || from.Real? || from.Char? || from.Bool?
    ensures IsSubtypeOf(from, Real(lit)) <==> from.Int? || from.Real? || from.Char? || from.Bool?
  {
  }

  lemma EnumTarget(from: Type, to: Type)
    requires WellFormed(from) && to.Enum?
    ensures IsSubtypeOf(from, to) <==>
      from.Enum? && |from.members| <= |to.members| && forall m :: m in from.members ==> m in to.members
  {
  }

  lemma StructTarget(from: Type, to: Type)
    requires WellFormed(from) && WellFormed(to) && to.Struct?
    ensures IsSubtypeOf(from, to) <==>
      from.Struct? && |from.fields| >= |to.fields|
      && forall i | 0 <= i < |to.fields| ::
           FieldType(from, to.fields[i]).Some? && IsSubtypeOf(FieldType(from, to.fields[i]).value, to.fieldTypes[i])
  {
  }

  lemma ListTarget(from: Type, to: Type)
    requires WellFormed(from) && WellFormed(to) && to.List?
    ensures !from.List? ==> !IsSubtypeOf(from, to)
    ensures from.List? && to.capacity.None? ==>
      (IsSubtypeOf(from, to) <==> from.capacity.None? && IsSubtypeOf(from.base, to.base))
    ensures (from.List? && from.capacity.Some? && to.capacity.Some?
             && from.capacity.value.IntLit? && to.capacity.value.IntLit?) ==>
      (IsSubtypeOf(from, to) <==>
         from.capacity.value.value >= to.capacity.value.value && IsSubtypeOf(from.base, to.base))
    ensures (from.List? && to.capacity.Some?
             && (from.capacity.None? || from.capacity.value.NonLiteral? || to.capacity.value.NonLiteral?)) ==>
      (IsSubtypeOf(from, to) <==> IsSubtypeOf(from.base, to.base))
  {
  }

  /** A tuple target needs a tuple of the same length whose elements are pairwise subtypes. */
  lemma TupleTarget(from: Type, to: Type)
    requires WellFormed(from) && WellFormed(to) && to.Tuple?
    ensures IsSubtypeOf(from, to) <==>
      from.Tuple? && |from.types| == |to.types|
      && forall i | 0 <= i < |to.types| :: IsSubtypeOf(from.types[i], to.types[i])
  {
  }

  /** Only the abstract type is below the abstract type. */
  lemma AbstractTarget(from: Type)
    requires WellFormed(from)
    ensures IsSubtypeOf(from, Abstract) <==> from.Abstract?
  {
  }

  lemma UnionTarget(from: Type, to: Type)
    requires WellFormed(from) && WellFormed(to) && to.Union?
    ensures from.Union? ==>
      (IsSubtypeOf(from, to) <==> forall i | 0 <= i < |from.types| :: IsSubtypeOf(from.types[i], to))
    ensures from == Union([]) ==> IsSubtypeOf(from, to)
    ensures !from.Union? ==>
      (IsSubtypeOf(from, to) <==> exists j | 0 <= j < |to.types| :: IsSubtypeOf(from, to.types[j]))
  {
  }

  /** The flattened alternative `l` is a subtype of some member of the union `to`. */
  predicate BelowSomeMember(l: Type, to: Type)
    requires WellFormed(to) && to.Union?
  {
    WellFormed(l) && exists j | 0 <= j < |to.types| :: IsSubtypeOf(l, to.types[j])
  }

  predicate AllBelowSomeMember(ls: seq<Type>, to: Type)
    requires WellFormed(to) && to.Union?
  {
    forall k | 0 <= k < |ls| :: BelowSomeMember(ls[k], to)
  }

  lemma AllBelowSomeMemberConcat(a: seq<Type>, b: seq<Type>, to: Type)
    requires WellFormed(to) && to.Union?
    ensures AllBelowSomeMember(a + b, to) <==> AllBelowSomeMember(a, to) && AllBelowSomeMember(b, to)
  {
    assert forall k | 0 <= k < |a| :: (a + b)[k] == a[k];
    assert forall k | 0 <= k < |b| :: (a + b)[|a| + k] == b[k];
    if AllBelowSomeMember(a, to) && AllBelowSomeMember(b, to) {
      forall k | 0 <= k < |a + b| ensures BelowSomeMember((a + b)[k], to) {
        if k >= |a| { assert (a + b)[k] == b[k - |a|]; }
      }
    }
  }

  /**
   * Union elimination: a type is below a union exactly when each of its
   * flattened alternatives is below some member of the union.
   */
  lemma {:induction false} UnionTargetByLeaves(from: Type, to: Type)
    requires WellFormed(from) && WellFormed(to) && to.Union?
    ensures IsSubtypeOf(from, to) <==> AllBelowSomeMember(Leaves(from), to)
    decreases from, 1, 0
  {
    if from.Union? {
      assert Leaves(from) == LeavesFrom(from, 0);
      UnionLeavesFrom(from, 0, to);
    } else {
      assert Leaves(from) == [from];
      assert AllBelowSomeMember([from], to) <==> BelowSomeMember([from][0], to);
    }
  }

  /**
   * Union elimination without the member search: a type is below a union
   * exactly when each of its flattened alternatives, none of them a union, is.
   */
  lemma UnionTargetByLeafSubtypes(from: Type, to: Type)
    requires WellFormed(from) && WellFormed(to) && to.Union?
    ensures forall k | 0 <= k < |Leaves(from)| :: WellFormed(Leaves(from)[k]) && !Leaves(from)[k].Union?
    ensures IsSubtypeOf(from, to) <==> forall k | 0 <= k < |Leaves(from)| :: IsSubtypeOf(Leaves(from)[k], to)
  {
    LeavesShape(from);
    UnionTargetByLeaves(from, to);
    forall k | 0 <= k < |Leaves(from)|
      ensures IsSubtypeOf(Leaves(from)[k], to) <==> BelowSomeMember(Leaves(from)[k], to)
    {
      UnionTarget(Leaves(from)[k], to);
    }
  }

  lemma {:induction false} UnionLeavesFrom(u: Type, i: nat, to: Type)
    requires WellFormed(u) && u.Union? && i <= |u.types|
    requires WellFormed(to) && to.Union?
    ensures (forall j | i <= j < |u.types| :: IsSubtypeOf(u.types[j], to)) <==> AllBelowSomeMember(LeavesFrom(u, i), to)
    decreases u, 0, |u.types| - i
  {
    if i < |u.types| {
      var a, b := Leaves(u.types[i]), LeavesFrom(u, i + 1);
      assert LeavesFrom(u, i) == a + b;
      UnionTargetByLeaves(u.types[i], to);
      UnionLeavesFrom(u, i + 1, to);
      AllBelowSomeMemberConcat(a, b, to);
      MembersBelowStep(u, i, to);
    }
  }

  lemma MembersBelowStep(u: Type, i: nat, to: Type)
    requires WellFormed(u) && u.Union? && i < |u.types|
    requires WellFormed(to) && to.Union?
    ensures (forall j | i <= j < |u.types| :: IsSubtypeOf(u.types[j], to)) <==>
      IsSubtypeOf(u.types[i], to) && forall j | i + 1 <= j < |u.types| :: IsSubtypeOf(u.types[j], to)
  {
  }

  lemma PortFunctionAutomatonTargets(from: Type, to: Type)
    requires WellFormed(from) && WellFormed(to)
    ensures to.Port? ==> (IsSubtypeOf(from, to) <==>
      from.Port? && from.direction == to.direction && IsSubtypeOf(from.valueType, to.valueType))
    ensures to.Function? ==> (IsSubtypeOf(from, to) <==>
      from.Function? && |from.paramsType| == |to.paramsType| && IsSubtypeOf(from.returnType, to.returnType)
      && forall i | 0 <= i < |to.paramsType| :: IsSubtypeOf(from.paramsType[i], to.paramsType[i]))
    ensures to.Automaton? ==> (IsSubtypeOf(from, to) <==> from.Automaton? && |from.ports| == |to.ports|)
  {
  }

  /** Parameters are compared in the same direction as the result (covariantly). */
  lemma FunctionParametersCovariant()
    ensures IsSubtypeOf(Function(Null, [Int(None)]), Function(Null, [Real(None)]))
    ensures !IsSubtypeOf(Function(Null, [Real(None)]), Function(Null, [Int(None)]))
  {
    assert !IsSubtypeOf(Function(Null, [Real(None)]).paramsType[0], Function(Null, [Int(None)]).paramsType[0]);
  }

  lemma ErrorTarget(from: Type, message: string, source: Option<NodeRef>)
    requires WellFormed(from)
    ensures IsSubtypeOf(from, Error(message, source)) <==> from.Error?
  {
  }

  /** Every struct, at any depth, names each of its fields once. */
  predicate FieldNamesDistinct(t: Type)
    decreases t
  {
    match t
    case Struct(fields, fieldTypes) =>
      (forall i, j | 0 <= i < j < |fields| :: fields[i] != fields[j])
      && forall i | 0 <= i < |fieldTypes| :: FieldNamesDistinct(fieldTypes[i])
    case List(base, _) => FieldNamesDistinct(base)
    case Tuple(types) => forall i | 0 <= i < |types| :: FieldNamesDistinct(types[i])
    case Union(types) => forall i | 0 <= i < |types| :: FieldNamesDistinct(types[i])
    case Port(_, valueType) => FieldNamesDistinct(valueType)
    case Function(returnType, paramsType) =>
      FieldNamesDistinct(returnType) && forall i | 0 <= i < |paramsType| :: FieldNamesDistinct(paramsType[i])
    case Automaton(ports) => forall i | 0 <= i < |ports| :: FieldNamesDistinct(ports[i])
    case _ => true
  }

  /** A subtype of one member of a union is a subtype of the whole union. */
  lemma {:induction false} BelowMemberBelowUnion(from: Type, m: Type, u: Type)
    requires WellFormed(from) && WellFormed(u) && u.Union? && m in u.types
    requires WellFormed(m) && IsSubtypeOf(from, m)
    ensures IsSubtypeOf(from, u)
    decreases from
  {
    if from.Union? {
      assert m.Union?;
      forall i | 0 <= i < |from.types| ensures IsSubtypeOf(from.types[i], u) {
        BelowMemberBelowUnion(from.types[i], m, u);
      }
    } else {
      var j :| 0 <= j < |u.types| && u.types[j] == m;
      assert IsSubtypeOf(from, u.types[j]);
    }
  }

  /** Reflexivity, for types whose structs do not repeat a field name. */
  lemma {:induction false} Reflexive(t: Type)
    requires WellFormed(t) && FieldNamesDistinct(t)
    ensures IsSubtypeOf(t, t)
    decreases t
  {
    match t
    case Struct(fields, fieldTypes) =>
      forall i | 0 <= i < |fields|
        ensures IsSubtypeOf(fieldTypes[IndexOf(fields, fields[i])], fieldTypes[i])
      {
        assert IndexOf(fields, fields[i]) == i;
        Reflexive(fieldTypes[i]);
      }
    case List(base, _) => Reflexive(base);
    case Tuple(types) =>
      forall i | 0 <= i < |types| ensures IsSubtypeOf(types[i], types[i]) { Reflexive(types[i]); }
    case Union(types) =>
      forall i | 0 <= i < |types| ensures IsSubtypeOf(types[i], t) {
        Reflexive(types[i]);
        BelowMemberBelowUnion(types[i], types[i], t);
      }
    case Port(_, valueType) => Reflexive(valueType);
    case Function(returnType, paramsType) =>
      Reflexive(returnType);
      forall i | 0 <= i < |paramsType| ensures IsSubtypeOf(paramsType[i], paramsType[i]) {
        Reflexive(paramsType[i]);
      }
    case _ =>
  }

  /** A repeated field name breaks reflexivity: the second `x` is compared with the first one's type. */
  lemma RepeatedFieldName()
    ensures !IsSubtypeOf(Struct(["x", "x"], [Int(None), Char(None)]), Struct(["x", "x"], [Int(None), Char(None)]))
  {
    var s := Struct(["x", "x"], [Int(None), Char(None)]);
    assert IndexOf(s.fields, s.fields[1]) == 0;
    assert !IsSubtypeOf(s.fieldTypes[0], s.fieldTypes[1]);
  }

  /** Width subtyping: appending fields to a struct yields a subtype of it. */
  lemma StructWidth(fields: seq<string>, fieldTypes: seq<Type>, moreFields: seq<string>, moreTypes: seq<Type>)
    requires WellFormed(Struct(fields, fieldTypes)) && FieldNamesDistinct(Struct(fields, fieldTypes))
    requires WellFormed(Struct(moreFields, moreTypes))
    ensures WellFormed(Struct(fields + moreFields, fieldTypes + moreTypes))
    ensures IsSubtypeOf(Struct(fields + moreFields, fieldTypes + moreTypes), Struct(fields, fieldTypes))
  {
    var wide := Struct(fields + moreFields, fieldTypes + moreTypes);
    assert forall i | 0 <= i < |fieldTypes + moreTypes| ::
      (fieldTypes + moreTypes)[i] == if i < |fieldTypes| then fieldTypes[i] else moreTypes[i - |fieldTypes|];
    forall i | 0 <= i < |fields|
      ensures IsSubtypeOf(wide.fieldTypes[IndexOf(wide.fields, fields[i])], fieldTypes[i])
    {
      assert wide.fields[i] == fields[i];
      assert IndexOf(wide.fields, fields[i]) == i;
      Reflexive(fieldTypes[i]);
    }
  }

  /** The relation is neither transitive nor antisymmetric on scalars. */
  lemma NotAPartialOrder()
    ensures IsSubtypeOf(Char(None), Bool(None)) && IsSubtypeOf(Bool(None), Int(None))
    ensures !IsSubtypeOf(Char(None), Int(None))
    ensures IsSubtypeOf(Int(None), Bool(None)) && Int(None) != Bool(None)
  {
  }

  /** Enum narrowing: a narrower enumeration is below a wider one, not the reverse. */
  lemma EnumInstances()
    ensures IsSubtypeOf(Enum(["A"]), Enum(["A", "B"]))
    ensures !IsSubtypeOf(Enum(["A", "B"]), Enum(["A"]))
  {
  }

  /** Struct width: dropping a field gives a supertype, adding one does not. */
  lemma StructInstances()
    ensures IsSubtypeOf(Struct(["x", "y"], [Int(None), Int(None)]), Struct(["x"], [Int(None)]))
    ensures !IsSubtypeOf(Struct(["x"], [Int(None)]), Struct(["x", "y"], [Int(None), Int(None)]))
  {
    StructWidth(["x"], [Int(None)], ["y"], [Int(None)]);
    assert ["x"] + ["y"] == ["x", "y"];
    assert [Int(None)] + [Int(None)] == [Int(None), Int(None)];
  }

  /** List capacity: a larger literal capacity is below a smaller one. */
  lemma ListInstances()
    ensures IsSubtypeOf(List(Int(None), Some(IntLit(5))), List(Int(None), Some(IntLit(3))))
    ensures !IsSubtypeOf(List(Int(None), Some(IntLit(2))), List(Int(None), Some(IntLit(3))))
  {
  }

  /** A scalar is below a union containing it; a union is never below a scalar. */
  lemma UnionInstances()
    ensures IsSubtypeOf(Int(None), Union([Int(None), Char(None)]))
    ensures !IsSubtypeOf(Union([Int(None), Bool(None)]), Int(None))
  {
    assert IsSubtypeOf(Int(None), Union([Int(None), Char(None)]).types[0]);
  }
}
