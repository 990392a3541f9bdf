/**
 * The first draft of the type description model (type-system/descriptions.ts):
 * a closed tagged union of fifteen variants, their tag predicates, the
 * tag-only renderer and the recursive `isNumber` classifier.
 *
 * Each `createX(...)` of the source is the datatype constructor of the same
 * variant: it stores its arguments unchanged (a struct's `fields` and
 * `fieldTypes` without any length check), so the destructors give back
 * exactly what was passed in.
 */
module Descriptions {
  import opened Wrappers

  /** Identity of a syntax node held inside a type: a literal or an error's source. */
  type NodeRef = nat

  datatype Direction = In | Out

  /** A list capacity expression: an integer literal, or any other expression. */
  datatype Capacity = IntLit(value: int) | NonLiteral

  datatype Type =
    | Abstract
    | Null
    | Int(literal: Option<NodeRef>)
    | Real(literal: Option<NodeRef>)
    | Char(literal: Option<NodeRef>)
    | Bool(literal: Option<NodeRef>)
    | Enum(members: seq<string>)
    | Struct(fields: seq<string>, fieldTypes: seq<Type>)
    | List(base: Type, capacity: Option<Capacity>)
    | Tuple(types: seq<Type>)
    | Union(types: seq<Type>)
    | Port(direction: Direction, valueType: Type)
    | Function(returnType: Type, paramsType: seq<Type>)
    | Automaton(ports: seq<Type>)
    | Error(message: string, source: Option<NodeRef>)

  /** The `$type` tag each variant carries. */
  function Tag(t: Type): string
  {
    match t
    case Abstract => "type"
    case Null => "null"
    case Int(_) => "int"
    case Real(_) => "real"
    case Char(_) => "char"
    case Bool(_) => "bool"
    case Enum(_) => "enum"
    case Struct(_, _) => "struct"
    case List(_, _) => "list"
    case Tuple(_) => "tuple"
    case Union(_) => "union"
    case Port(_, _) => "port"
    case Function(_, _) => "function"
    case Automaton(_) => "automaton"
    case Error(_, _) => "error"
  }

  const AllTags: seq<string> :=
    ["type", "null", "int", "real", "char", "bool", "enum", "struct", "list",
     "tuple", "union", "port", "function", "automaton", "error"]

  predicate IsAbstractType(t: Type) { Tag(t) == "type" }
  predicate IsNullType(t: Type) { Tag(t) == "null" }
  predicate IsIntType(t: Type) { Tag(t) == "int" }
  predicate IsRealType(t: Type) { Tag(t) == "real" }
  predicate IsCharType(t: Type) { Tag(t) == "char" }
  predicate IsBoolType(t: Type) { Tag(t) == "bool" }
  predicate IsEnumType(t: Type) { Tag(t) == "enum" }
  predicate IsStructType(t: Type) { Tag(t) == "struct" }
  predicate IsListType(t: Type) { Tag(t) == "list" }
  predicate IsTupleType(t: Type) { Tag(t) == "tuple" }
  predicate IsUnionType(t: Type) { Tag(t) == "union" }
  predicate IsPortType(t: Type) { Tag(t) == "port" }
  predicate IsFunctionType(t: Type) { Tag(t) == "function" }
  predicate IsAutomatonType(t: Type) { Tag(t) == "automaton" }
  predicate IsErrorType(t: Type) { Tag(t) == "error" }

  /** How many of the fifteen tag predicates hold of `t`. */
  function PredicatesHolding(t: Type): nat
  {
    (if IsAbstractType(t) then 1 else 0) + (if IsNullType(t) then 1 else 0) +
    (if IsIntType(t) then 1 else 0) + (if IsRealType(t) then 1 else 0) +
    (if IsCharType(t) then 1 else 0) + (if IsBoolType(t) then 1 else 0) +
    (if IsEnumType(t) then 1 else 0) + (if IsStructType(t) then 1 else 0) +
    (if IsListType(t) then 1 else 0) + (if IsTupleType(t) then 1 else 0) +
    (if IsUnionType(t) then 1 else 0) + (if IsPortType(t) then 1 else 0) +
    (if IsFunctionType(t) then 1 else 0) + (if IsAutomatonType(t) then 1 else 0) +
    (if IsErrorType(t) then 1 else 0)
  }

  /** A value built by `createX` satisfies `isX` and no other tag predicate. */
  lemma TagPredicatesMatchConstructors(t: Type)
    ensures IsAbstractType(t) <==> t.Abstract?
    ensures IsNullType(t) <==> t.Null?
    ensures IsIntType(t) <==> t.Int?
    ensures IsRealType(t) <==> t.Real?
    ensures IsCharType(t) <==> t.Char?
    ensures IsBoolType(t) <==> t.Bool?
    ensures IsEnumType(t) <==> t.Enum?
    ensures IsStructType(t) <==> t.Struct?
    ensures IsListType(t) <==> t.List?
    ensures IsTupleType(t) <==> t.Tuple?
    ensures IsUnionType(t) <==> t.Union?
    ensures IsPortType(t) <==> t.Port?
    ensures IsFunctionType(t) <==> t.Function?
    ensures IsAutomatonType(t) <==> t.Automaton?
    ensures IsErrorType(t) <==> t.Error?
    ensures PredicatesHolding(t) == 1
  {
  }

  /** `createStructType` checks nothing: a struct with a missing field type can be built. */
  lemma StructConstructorChecksNoLengths()
    ensures var s := Struct(["x"], []); s.fields == ["x"] && s.fieldTypes == [] && !WellFormed(s)
  {
  }

  /**
   * The shape every type the inference produces has: struct field names and
   * field types are index-aligned, and an automaton lists port types only.
   */
  predicate WellFormed(t: Type)
    decreases t
  {
    match t
    case Struct(fields, fieldTypes) =>
      |fields| == |fieldTypes| && forall i | 0 <= i < |fieldTypes| :: WellFormed(fieldTypes[i])
    case List(base, _) => WellFormed(base)
    case Tuple(types) => forall i | 0 <= i < |types| :: WellFormed(types[i])
    case Union(types) => forall i | 0 <= i < |types| :: WellFormed(types[i])
    case Port(_, valueType) => WellFormed(valueType)
    case Function(returnType, paramsType) =>
      WellFormed(returnType) && forall i | 0 <= i < |paramsType| :: WellFormed(paramsType[i])
    case Automaton(ports) => forall i | 0 <= i < |ports| :: ports[i].Port? && WellFormed(ports[i])
    case _ => true
  }

  /** `typeToString` of this draft prints the bare tag. */
  function TypeToString(t: Type): (s: string)
    ensures s in AllTags
    ensures s == "function" <==> t.Function?
    ensures s == "automaton" <==> t.Automaton?
  {
    Tag(t)
  }

  /** Each variant renders as its own `$type` string. */
  lemma TypeToStringByVariant(t: Type)
    ensures t.Abstract? ==> TypeToString(t) == "type"
    ensures t.Null? ==> TypeToString(t) == "null"
    ensures t.Int? ==> TypeToString(t) == "int"
    ensures t.Real? ==> TypeToString(t) == "real"
    ensures t.Char? ==> TypeToString(t) == "char"
    ensures t.Bool? ==> TypeToString(t) == "bool"
    ensures t.Enum? ==> TypeToString(t) == "enum"
    ensures t.Struct? ==> TypeToString(t) == "struct"
    ensures t.List? ==> TypeToString(t) == "list"
    ensures t.Tuple? ==> TypeToString(t) == "tuple"
    ensures t.Union? ==> TypeToString(t) == "union"
    ensures t.Port? ==> TypeToString(t) == "port"
    ensures t.Function? ==> TypeToString(t) == "function"
    ensures t.Automaton? ==> TypeToString(t) == "automaton"
    ensures t.Error? ==> TypeToString(t) == "error"
  {
  }

  /** Numeric scalars, and unions all of whose members are numbers. */
  function IsNumber(t: Type): (r: bool)
    decreases t
  {
    if Tag(t) in ["int", "real", "bool"] then true
    else if Tag(t) == "union" then forall i | 0 <= i < |t.types| :: IsNumber(t.types[i])
    else false
  }

  lemma IsNumberByVariant(t: Type)
    ensures t.Int? || t.Real? || t.Bool? ==> IsNumber(t)
    ensures t.Union? ==> (IsNumber(t) <==> forall i | 0 <= i < |t.types| :: IsNumber(t.types[i]))
    ensures t.Union? && t.types == [] ==> IsNumber(t)
    ensures !(t.Int? || t.Real? || t.Bool? || t.Union?) ==> !IsNumber(t)
  {
  }

  /** The non-union types a type stands for once nested unions are flattened, in order. */
  function Leaves(t: Type): seq<Type>
    decreases t, 1, 0
  {
    if t.Union? then LeavesFrom(t, 0) else [t]
  }

  function LeavesFrom(u: Type, i: nat): seq<Type>
    requires u.Union? && i <= |u.types|
    decreases u, 0, |u.types| - i
  {
    if i == |u.types| then [] else Leaves(u.types[i]) + LeavesFrom(u, i + 1)
  }

  /** Flattening leaves no union behind, and keeps a well-formed type's leaves well formed. */
  lemma {:induction false} LeavesShape(t: Type)
    ensures forall i | 0 <= i < |Leaves(t)| :: !Leaves(t)[i].Union?
    ensures WellFormed(t) ==> forall i | 0 <= i < |Leaves(t)| :: WellFormed(Leaves(t)[i])
    decreases t, 1, 0
  {
    if t.Union? {
      LeavesFromShape(t, 0);
    } else {
      assert Leaves(t) == [t];
    }
  }

  lemma {:induction false} LeavesFromShape(u: Type, i: nat)
    requires u.Union? && i <= |u.types|
    ensures forall k | 0 <= k < |LeavesFrom(u, i)| :: !LeavesFrom(u, i)[k].Union?
    ensures WellFormed(u) ==> forall k | 0 <= k < |LeavesFrom(u, i)| :: WellFormed(LeavesFrom(u, i)[k])
    decreases u, 0, |u.types| - i
  {
    if i < |u.types| {
      var a, b := Leaves(u.types[i]), LeavesFrom(u, i + 1);
      LeavesShape(u.types[i]);
      LeavesFromShape(u, i + 1);
      assert LeavesFrom(u, i) == a + b;
      assert forall k | 0 <= k < |a| :: (a + b)[k] == a[k];
      assert forall k | 0 <= k < |b| :: (a + b)[|a| + k] == b[k];
    }
  }

  predicate NumericScalar(t: Type) { t.Int? || t.Real? || t.Bool? }

  predicate AllNumericScalars(s: seq<Type>) { forall k | 0 <= k < |s| :: NumericScalar(s[k]) }

  lemma AllNumericScalarsConcat(a: seq<Type>, b: seq<Type>)
    ensures AllNumericScalars(a + b) <==> AllNumericScalars(a) && AllNumericScalars(b)
  {
    assert forall k | 0 <= k < |a| :: (a + b)[k] == a[k];
    assert forall k | 0 <= k < |b| :: (a + b)[|a| + k] == b[k];
    if AllNumericScalars(a) && AllNumericScalars(b) {
      forall k | 0 <= k < |a + b| ensures NumericScalar((a + b)[k]) {
        if k >= |a| { assert (a + b)[k] == b[k - |a|]; }
      }
    }
  }

  /** `isNumber` holds exactly when every flattened alternative is int, real or bool. */
  lemma {:induction false} IsNumberIffNumericLeaves(t: Type)
    ensures IsNumber(t) <==> AllNumericScalars(Leaves(t))
    decreases t, 1, 0
  {
    if t.Union? {
      assert Leaves(t) == LeavesFrom(t, 0);
      LeavesFromNumeric(t, 0);
    } else {
      IsNumberByVariant(t);
      assert Leaves(t) == [t];
      assert [t][0] == t;
      assert AllNumericScalars([t]) <==> NumericScalar(t);
    }
  }

  lemma {:induction false} LeavesFromNumeric(u: Type, i: nat)
    requires u.Union? && i <= |u.types|
    ensures (forall j | i <= j < |u.types| :: IsNumber(u.types[j])) <==> AllNumericScalars(LeavesFrom(u, i))
    decreases u, 0, |u.types| - i
  {
    if i < |u.types| {
      IsNumberIffNumericLeaves(u.types[i]);
      LeavesFromNumeric(u, i + 1);
      AllNumericScalarsConcat(Leaves(u.types[i]), LeavesFrom(u, i + 1));
    }
  }
}
