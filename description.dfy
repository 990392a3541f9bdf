/**
 * The second draft of the type description model (type-system/description.ts):
 * sixteen variants, now with `func`, `interface` and `loop-var` tags and an
 * optional concrete type on `type`; the tag-class predicates and the
 * recursive `typeToString` renderer.
 *
 * As in the first draft, each `createX(...)` is the datatype constructor of
 * its variant and stores its arguments unchanged.
 */
module Description {
  import opened Wrappers

  /** Identity of a syntax node held inside a type: a literal, a capacity expression, a source. */
  type NodeRef = nat

  datatype Direction = In | Out

  /** An enum member syntax node; only its name is ever read. */
  datatype EnumMember = EnumMember(node: NodeRef, name: string)

  datatype Type =
    | Null
    | Int(literal: Option<NodeRef>)
    | Real(literal: Option<NodeRef>)
    | Char(literal: Option<NodeRef>)
    | Bool(literal: Option<NodeRef>)
    | Abstract(concreteType: Option<Type>)
    | Enum(members: seq<EnumMember>)
    | Struct(fields: seq<string>, fieldTypes: seq<Type>)
    | List(base: Type, capacity: Option<NodeRef>)
    | Tuple(types: seq<Type>)
    | Union(types: seq<Type>)
    | Func(returnType: Type, argumentTypes: seq<Type>)
    | Interface(portTypes: seq<Type>)
    | Port(direction: Direction, valueType: Type)
    | LoopVariable(varType: Type)
    | Error(message: string, source: Option<NodeRef>)

  function Tag(t: Type): string
  {
    match t
    case Null => "null"
    case Int(_) => "int"
    case Real(_) => "real"
    case Char(_) => "char"
    case Bool(_) => "bool"
    case Abstract(_) => "type"
    case Enum(_) => "enum"
    case Struct(_, _) => "struct"
    case List(_, _) => "list"
    case Tuple(_) => "tuple"
    case Union(_) => "union"
    case Func(_, _) => "func"
    case Interface(_) => "interface"
    case Port(_, _) => "port"
    case LoopVariable(_) => "loop-var"
    case Error(_, _) => "error"
  }

  predicate IsNullType(t: Type) { Tag(t) == "null" }
  predicate IsIntType(t: Type) { Tag(t) == "int" }
  predicate IsRealType(t: Type) { Tag(t) == "real" }
  predicate IsCharType(t: Type) { Tag(t) == "char" }
  predicate IsBoolType(t: Type) { Tag(t) == "bool" }
  predicate IsAbstractType(t: Type) { Tag(t) == "type" }
  predicate IsEnumType(t: Type) { Tag(t) == "enum" }
  predicate IsStructType(t: Type) { Tag(t) == "struct" }
  predicate IsListType(t: Type) { Tag(t) == "list" }
  predicate IsTupleType(t: Type) { Tag(t) == "tuple" }
  predicate IsUnionType(t: Type) { Tag(t) == "union" }
  predicate IsFunctionType(t: Type) { Tag(t) == "func" }
  predicate IsInterfaceType(t: Type) { Tag(t) == "interface" }
  predicate IsPortType(t: Type) { Tag(t) == "port" }
  predicate IsLoopVariableType(t: Type) { Tag(t) == "loop-var" }
  predicate IsErrorType(t: Type) { Tag(t) == "error" }

  /** A value built by `createX` satisfies `isX` and no other tag predicate. */
  lemma TagPredicatesMatchConstructors(t: Type)
    ensures IsNullType(t) <==> t.Null?
    ensures IsIntType(t) <==> t.Int?
    ensures IsRealType(t) <==> t.Real?
    ensures IsCharType(t) <==> t.Char?
    ensures IsBoolType(t) <==> t.Bool?
    ensures IsAbstractType(t) <==> t.Abstract?
    ensures IsEnumType(t) <==> t.Enum?
    ensures IsStructType(t) <==> t.Struct?
    ensures IsListType(t) <==> t.List?
    ensures IsTupleType(t) <==> t.Tuple?
    ensures IsUnionType(t) <==> t.Union?
    ensures IsFunctionType(t) <==> t.Func?
    ensures IsInterfaceType(t) <==> t.Interface?
    ensures IsPortType(t) <==> t.Port?
    ensures IsLoopVariableType(t) <==> t.LoopVariable?
    ensures IsErrorType(t) <==> t.Error?
  {
  }

  predicate IsPrimitiveType(t: Type)
  {
    Tag(t) in ["int", "real", "char", "bool", "null"]
  }

  predicate IsParameterType(t: Type)
  {
    Tag(t) in ["type", "func", "interface"]
  }

  predicate IsExpressionType(t: Type)
  {
    Tag(t) in ["int", "real", "char", "bool", "null", "enum", "struct", "list", "tuple", "union", "port"]
  }

  /** The three tag classes, by variant, and how they relate. */
  lemma TagClasses(t: Type)
    ensures IsPrimitiveType(t) <==> t.Int? || t.Real? || t.Char? || t.Bool? || t.Null?
    ensures IsParameterType(t) <==> t.Abstract? || t.Func? || t.Interface?
    ensures IsExpressionType(t) <==>
      t.Int? || t.Real? || t.Char? || t.Bool? || t.Null? || t.Enum? || t.Struct? || t.List?
      || t.Tuple? || t.Union? || t.Port?
    ensures !(IsExpressionType(t) && IsParameterType(t))
    ensures IsPrimitiveType(t) ==> IsExpressionType(t)
    ensures t.LoopVariable? || t.Error? <==> !IsExpressionType(t) && !IsParameterType(t)
  {
  }

  /**
   * Struct fields and field types are index-aligned and an interface lists port types only.
   * The concrete type of `type` is never rendered, so it is not constrained.
   */
  predicate WellFormed(t: Type)
    decreases t
  {
    match t
    case Struct(fields, fieldTypes) =>
      |fields| == |fieldTypes| && forall i | 0 <= i < |fieldTypes| :: WellFormed(fieldTypes[i])
    case List(base, _) => WellFormed(base)
    case Tuple(types) => forall i | 0 <= i < |types| :: WellFormed(types[i])
    case Union(types) => forall i | 0 <= i < |types| :: WellFormed(types[i])
    case Func(returnType, argumentTypes) =>
      WellFormed(returnType) && forall i | 0 <= i < |argumentTypes| :: WellFormed(argumentTypes[i])
    case Interface(portTypes) => forall i | 0 <= i < |portTypes| :: portTypes[i].Port? && WellFormed(portTypes[i])
    case Port(_, valueType) => WellFormed(valueType)
    case LoopVariable(varType) => WellFormed(varType)
    case _ => true
  }

  /** What JavaScript prints for a plain object placed in a template string. */
  const ObjectText: string := "[object Object]"

  /** JavaScript's `Array.prototype.join`. */
  function Join(parts: seq<string>, sep: string): string
  {
    if |parts| == 0 then ""
    else if |parts| == 1 then parts[0]
    else parts[0] + sep + Join(parts[1..], sep)
  }

  function Repeat(s: string, n: nat): string
  {
    if n == 0 then "" else s + Repeat(s, n - 1)
  }

  function TypeToString(t: Type): (s: string)
    requires WellFormed(t)
    decreases t, 1
  {
    match t
    case Null => "null"
    case Int(literal) => "int" + (if literal.Some? then " " + ObjectText else "")
    case Real(literal) => "real" + (if literal.Some? then " " + ObjectText else "")
    case Char(literal) => "char" + (if literal.Some? then " " + ObjectText else "")
    case Bool(literal) => "bool" + (if literal.Some? then " " + ObjectText else "")
    case Enum(members) =>
      "enum {" + Join(seq(|members|, i requires 0 <= i < |members| => members[i].name), ", ") + "}"
    case Struct(fields, _) =>
      // the `map` callback has a block body without `return`: every field becomes `undefined`,
      // which `join` prints as the empty string
      "struct {" + Join(seq(|fields|, i => ""), ", ") + "}"
    case List(base, capacity) => TypeToString(base) + "[" + (if capacity.Some? then "n" else "") + "]"
    case Tuple(types) =>
      "(" + Join(seq(|types|, i requires 0 <= i < |types| => TypeToString(types[i])), ", ") + ")"
    case Union(types) =>
      Join(seq(|types|, i requires 0 <= i < |types| => TypeToString(types[i])), " | ")
    case Abstract(concrete) => "type" + (if concrete.Some? then " (" + ObjectText + ")" else "")
    case Func(returnType, argumentTypes) =>
      "func (" + Join(seq(|argumentTypes|, i requires 0 <= i < |argumentTypes| => TypeToString(argumentTypes[i])), ", ")
      + "): " + TypeToString(returnType)
    case Interface(portTypes) =>
      "interface ("
      + Join(seq(|portTypes|, i requires 0 <= i < |portTypes| => PortToString(portTypes[i])), ", ")
      + ")"
    case Port(_, _) => PortToString(t)
    case LoopVariable(varType) => "loop-var " + TypeToString(varType)
    case Error(message, source) => "error: '" + message + "'" + (if source.Some? then " from " + ObjectText else "")
  }

  /** A port as `dir T`, both on its own and inside an interface. */
  function PortToString(p: Type): string
    requires p.Port? && WellFormed(p)
    decreases p, 0
  {
    DirectionText(p.direction) + " " + TypeToString(p.valueType)
  }

  function DirectionText(d: Direction): string
  {
    match d
    case In => "in"
    case Out => "out"
  }

  /** A primitive renders as its tag, followed by its literal only when it has one; null never has one. */
  lemma PrimitiveRendering(t: Type)
    requires IsPrimitiveType(t)
    ensures t.Null? ==> TypeToString(t) == "null"
    ensures !t.Null? && t.literal.None? ==> TypeToString(t) == Tag(t)
    ensures !t.Null? && t.literal.Some? ==> TypeToString(t) == Tag(t) + " " + ObjectText
  {
  }

  /** Every variant but list, tuple, union and port renders starting with its own tag. */
  lemma {:induction false} RenderingStartsWithTag(t: Type)
    requires WellFormed(t) && !(t.List? || t.Tuple? || t.Union? || t.Port?)
    ensures Tag(t) <= TypeToString(t)
  {
    var r := TypeToString(t);
    assert r == Tag(t) + r[|Tag(t)|..];
  }

  /** The names of enum members, in order. */
  function MemberNames(members: seq<EnumMember>): (names: seq<string>)
    ensures |names| == |members|
    ensures forall i :: 0 <= i < |members| ==> names[i] == members[i].name
  {
    if members == [] then [] else [members[0].name] + MemberNames(members[1..])
  }

  /** An enum renders as its member names joined by `", "` in braces. */
  lemma EnumRendering(members: seq<EnumMember>)
    ensures TypeToString(Enum(members)) == "enum {" + Join(MemberNames(members), ", ") + "}"
  {
    assert seq(|members|, i requires 0 <= i < |members| => members[i].name) == MemberNames(members);
  }

  /** An abstract type renders as `type`, with an object text in parentheses only when it has a concrete type. */
  lemma AbstractRendering(concreteType: Option<Type>)
    ensures concreteType.None? ==> TypeToString(Abstract(concreteType)) == "type"
    ensures concreteType.Some? ==> TypeToString(Abstract(concreteType)) == "type ([object Object])"
  {
  }

  /** A loop variable renders as `loop-var` followed by its type. */
  lemma LoopVariableRendering(varType: Type)
    requires WellFormed(varType)
    ensures TypeToString(LoopVariable(varType)) == "loop-var " + TypeToString(varType)
  {
  }

  /** An error renders its message in quotes, followed by an object text only when it has a source. */
  lemma ErrorRendering(message: string, source: Option<NodeRef>)
    ensures source.None? ==> TypeToString(Error(message, source)) == "error: '" + message + "'"
    ensures source.Some? ==> TypeToString(Error(message, source)) == "error: '" + message + "' from [object Object]"
  {
  }

  lemma {:induction false} JoinOfEmpties(n: nat, sep: string)
    ensures Join(seq(n, i => ""), sep) == if n == 0 then "" else Repeat(sep, n - 1)
  {
    if n >= 2 {
      var s, t := seq(n, i => ""), seq(n - 1, i => "");
      assert s[1..] == t;
      assert Join(s, sep) == "" + sep + Join(t, sep);
      JoinOfEmpties(n - 1, sep);
    }
  }

  /** As written, a struct renders no field text at all: only one separator between each pair of fields. */
  lemma StructRendering(fields: seq<string>, fieldTypes: seq<Type>)
    requires WellFormed(Struct(fields, fieldTypes))
    ensures TypeToString(Struct(fields, fieldTypes)) ==
      "struct {" + (if |fields| == 0 then "" else Repeat(", ", |fields| - 1)) + "}"
    ensures TypeToString(Struct(["x"], [Int(None)])) == "struct {}"
  {
    JoinOfEmpties(|fields|, ", ");
    JoinOfEmpties(1, ", ");
  }

  /** `name: T`, the text the struct callback evidently meant to return for one field. */
  function FieldText(name: string, t: Type): string
    requires WellFormed(t)
  {
    name + ": " + TypeToString(t)
  }

  function FieldTexts(fields: seq<string>, fieldTypes: seq<Type>): seq<string>
    requires WellFormed(Struct(fields, fieldTypes))
  {
    seq(|fields|, i requires 0 <= i < |fields| => FieldText(fields[i], fieldTypes[i]))
  }

  /** The struct rendering with the callback's `return` restored: each field as `name: T`, joined by `", "`. */
  function StructToStringFixed(fields: seq<string>, fieldTypes: seq<Type>): (s: string)
    requires WellFormed(Struct(fields, fieldTypes))
  {
    "struct {" + Join(FieldTexts(fields, fieldTypes), ", ") + "}"
  }

  /** The corrected rendering of no field and of one field, which the written one drops. */
  lemma StructRenderingFixed(name: string, a: Type)
    requires WellFormed(a)
    ensures StructToStringFixed([], []) == "struct {}"
    ensures StructToStringFixed([name], [a]) == "struct {" + name + ": " + TypeToString(a) + "}"
  {
    assert FieldTexts([name], [a]) == [FieldText(name, a)];
    JoinOneTwo(FieldText(name, a), "", ", ");
    RegroupTriple("struct {", name, ": ", TypeToString(a), "}");
  }

  /** The written renderer drops the field that the corrected one shows. */
  lemma StructFieldDropped()
    ensures TypeToString(Struct(["x"], [Int(None)])) == "struct {}"
    ensures StructToStringFixed(["x"], [Int(None)]) == "struct {x: int}"
  {
    StructRendering(["x"], [Int(None)]);
    StructRenderingFixed("x", Int(None));
    assert TypeToString(Int(None)) == "int";
  }

  /** Appending a field to a non-empty struct inserts `", "` and `name: T` before the closing brace. */
  lemma StructRenderingFixedSnoc(fields: seq<string>, fieldTypes: seq<Type>, name: string, x: Type)
    requires WellFormed(Struct(fields, fieldTypes)) && WellFormed(x) && fields != []
    ensures WellFormed(Struct(fields + [name], fieldTypes + [x]))
    ensures var s := StructToStringFixed(fields, fieldTypes);
      |s| >= 1 && s[|s| - 1] == '}' &&
      StructToStringFixed(fields + [name], fieldTypes + [x]) == s[..|s| - 1] + ", " + name + ": " + TypeToString(x) + "}"
  {
    var fs, ts := fields + [name], fieldTypes + [x];
    assert forall i | 0 <= i < |fieldTypes| :: ts[i] == fieldTypes[i];
    assert WellFormed(Struct(fs, ts));
    var j, f := Join(FieldTexts(fields, fieldTypes), ", "), FieldText(name, x);
    assert FieldTexts(fs, ts) == FieldTexts(fields, fieldTypes) + [f];
    JoinSnoc(FieldTexts(fields, fieldTypes), f, ", ");
    Regroup("struct {", j, ", ", f, "}", "");
    var s := StructToStringFixed(fields, fieldTypes);
    InsertBeforeTail("struct {" + j, "}", ", " + f, s, StructToStringFixed(fs, ts));
    RegroupPort(s[..|s| - 1], ", ", name, ": ", TypeToString(x), "}");
  }

  /** A list prints its base and `[n]` or `[]`; the capacity expression itself is never printed. */
  lemma ListRendering(base: Type, capacity: Option<NodeRef>, other: NodeRef)
    requires WellFormed(base)
    ensures TypeToString(List(base, capacity)) ==
      TypeToString(base) + (if capacity.Some? then "[n]" else "[]")
    ensures capacity.Some? ==> TypeToString(List(base, capacity)) == TypeToString(List(base, Some(other)))
  {
  }

  lemma JoinOneTwo(x: string, y: string, sep: string)
    ensures Join([x], sep) == x
    ensures Join([x, y], sep) == x + sep + y
  {
    assert [x, y][1..] == [y];
  }

  lemma JoinTwoBracketed(x: string, y: string, sep: string, open: string, close: string)
    ensures open + Join([x, y], sep) + close == open + x + sep + y + close
  {
    JoinOneTwo(x, y, sep);
  }

  /** Tuples are bracketed and comma-separated. */
  lemma TupleRendering(a: Type, b: Type)
    requires WellFormed(a) && WellFormed(b)
    ensures TypeToString(Tuple([])) == "()"
    ensures TypeToString(Tuple([a])) == "(" + TypeToString(a) + ")"
    ensures TypeToString(Tuple([a, b])) == "(" + TypeToString(a) + ", " + TypeToString(b) + ")"
  {
    var two := [a, b];
    var ra, rb := TypeToString(a), TypeToString(b);
    assert TypeToString(Tuple(two)) == "(" + Join([ra, rb], ", ") + ")" by {
      assert seq(2, i requires 0 <= i < 2 => TypeToString(two[i])) == [ra, rb];
    }
    JoinTwoBracketed(ra, rb, ", ", "(", ")");
    var one := [a];
    assert seq(1, i requires 0 <= i < 1 => TypeToString(one[i])) == [ra];
  }

  /** Unions are bar-separated with no brackets, so a one-member union renders as its member. */
  lemma UnionRendering(a: Type, b: Type)
    requires WellFormed(a) && WellFormed(b)
    ensures TypeToString(Union([])) == ""
    ensures TypeToString(Union([a])) == TypeToString(a)
    ensures TypeToString(Union([a, b])) == TypeToString(a) + " | " + TypeToString(b)
  {
    var two := [a, b];
    assert seq(2, i requires 0 <= i < 2 => TypeToString(two[i])) == [TypeToString(a), TypeToString(b)];
    var one := [a];
    assert seq(1, i requires 0 <= i < 1 => TypeToString(one[i])) == [TypeToString(a)];
    JoinOneTwo(TypeToString(a), TypeToString(b), " | ");
  }

  /** Functions render as `func (params): return`. */
  lemma FunctionRendering(r: Type, a: Type)
    requires WellFormed(r) && WellFormed(a)
    ensures TypeToString(Func(r, [])) == "func (): " + TypeToString(r)
    ensures TypeToString(Func(r, [a])) == "func (" + TypeToString(a) + "): " + TypeToString(r)
  {
    FunctionText(r, []);
    FunctionText(r, [a]);
    JoinOneTwo(TypeToString(a), "", ", ");
  }

  lemma FunctionText(r: Type, args: seq<Type>)
    requires WellFormed(Func(r, args)) && |args| <= 1
    ensures TypeToString(Func(r, args)) == "func (" + Join(if args == [] then [] else [TypeToString(args[0])], ", ") + "): " + TypeToString(r)
  {
    var parts := seq(|args|, i requires 0 <= i < |args| => TypeToString(args[i]));
    assert parts == if args == [] then [] else [TypeToString(args[0])];
  }

  /** A port renders as its direction, a space and its value type. */
  lemma PortRendering(d: Direction, v: Type)
    requires WellFormed(v)
    ensures TypeToString(Port(d, v)) == DirectionText(d) + " " + TypeToString(v)
  {
  }

  /** An interface lists its ports, each rendered as a port, in parentheses. */
  lemma InterfaceRendering(d: Direction, v: Type)
    requires WellFormed(v)
    ensures TypeToString(Interface([])) == "interface ()"
    ensures TypeToString(Interface([Port(d, v)])) == "interface (" + DirectionText(d) + " " + TypeToString(v) + ")"
  {
    var port := DirectionText(d) + " " + TypeToString(v);
    PortRendering(d, v);
    SinglePortInterface(Port(d, v));
    JoinOneTwo(port, "", ", ");
    RegroupTriple("interface (", DirectionText(d), " ", TypeToString(v), ")");
  }

  lemma SinglePortInterface(p: Type)
    requires p.Port? && WellFormed(p)
    ensures TypeToString(Interface([p])) == "interface (" + Join([PortToString(p)], ", ") + ")"
  {
    var parts := seq(1, i requires 0 <= i < 1 => PortToString([p][i]));
    assert parts == [PortToString(p)];
  }

  /** JavaScript's `join` grows by one separator and the new part when a part is appended. */
  lemma {:induction false} JoinSnoc(xs: seq<string>, x: string, sep: string)
    requires xs != []
    ensures Join(xs + [x], sep) == Join(xs, sep) + sep + x
    decreases |xs|
  {
    if |xs| == 1 {
      assert xs + [x] == [xs[0], x];
      JoinOneTwo(xs[0], x, sep);
    } else {
      assert (xs + [x])[1..] == xs[1..] + [x];
      JoinSnoc(xs[1..], x, sep);
    }
  }

  predicate AllWellFormed(ts: seq<Type>)
  {
    forall i | 0 <= i < |ts| :: WellFormed(ts[i])
  }

  /** `types.map(e => typeToString(e))`. */
  function Renderings(ts: seq<Type>): seq<string>
    requires AllWellFormed(ts)
  {
    seq(|ts|, i requires 0 <= i < |ts| => TypeToString(ts[i]))
  }

  lemma RenderingsSnoc(ts: seq<Type>, x: Type)
    requires AllWellFormed(ts) && WellFormed(x)
    ensures AllWellFormed(ts + [x])
    ensures Renderings(ts + [x]) == Renderings(ts) + [TypeToString(x)]
  {
    assert forall i | 0 <= i < |ts| :: (ts + [x])[i] == ts[i];
  }

  /** Appending a member to a union with members appends a bar and the member's rendering. */
  lemma UnionRenderingSnoc(ts: seq<Type>, x: Type)
    requires WellFormed(Union(ts)) && WellFormed(x) && ts != []
    ensures WellFormed(Union(ts + [x]))
    ensures TypeToString(Union(ts + [x])) == TypeToString(Union(ts)) + " | " + TypeToString(x)
  {
    RenderingsSnoc(ts, x);
    assert TypeToString(Union(ts)) == Join(Renderings(ts), " | ");
    assert TypeToString(Union(ts + [x])) == Join(Renderings(ts + [x]), " | ");
    JoinSnoc(Renderings(ts), TypeToString(x), " | ");
  }

  /** Appending an element to a non-empty tuple inserts a comma and the element before the closing bracket. */
  lemma TupleRenderingSnoc(ts: seq<Type>, x: Type)
    requires WellFormed(Tuple(ts)) && WellFormed(x) && ts != []
    ensures WellFormed(Tuple(ts + [x]))
    ensures var s := TypeToString(Tuple(ts));
      |s| >= 2 && s[0] == '(' && s[|s| - 1] == ')' &&
      TypeToString(Tuple(ts + [x])) == s[..|s| - 1] + ", " + TypeToString(x) + ")"
  {
    RenderingsSnoc(ts, x);
    var j := Join(Renderings(ts), ", ");
    assert TypeToString(Tuple(ts)) == "(" + j + ")";
    assert TypeToString(Tuple(ts + [x])) == "(" + Join(Renderings(ts + [x]), ", ") + ")";
    JoinSnoc(Renderings(ts), TypeToString(x), ", ");
    var s := "(" + j + ")";
    assert s[..|s| - 1] == "(" + j;
  }

  /** Text `s` ends with `tail`, and `s2` is `s` with `mid` inserted just before that tail. */
  lemma InsertBeforeTail(head: string, tail: string, mid: string, s: string, s2: string)
    requires s == head + tail && s2 == head + mid + tail
    ensures |s| >= |tail| && s[|s| - |tail|..] == tail && s2 == s[..|s| - |tail|] + mid + tail
  {
    assert s[..|head|] == head;
  }

  lemma FuncWellFormedSnoc(r: Type, ps: seq<Type>, x: Type)
    requires WellFormed(Func(r, ps)) && WellFormed(x)
    ensures WellFormed(Func(r, ps + [x]))
  {
    assert forall i | 0 <= i < |ps| :: (ps + [x])[i] == ps[i];
  }

  lemma FunctionTextGeneral(r: Type, ps: seq<Type>)
    requires WellFormed(Func(r, ps))
    ensures AllWellFormed(ps)
    ensures TypeToString(Func(r, ps)) == "func (" + Join(Renderings(ps), ", ") + "): " + TypeToString(r)
  {
  }

  /** Regrouping the pieces of a rendering with text inserted before its closing part. */
  lemma Regroup(open: string, j: string, sep: string, y: string, close: string, r: string)
    ensures open + j + close + r == (open + j) + (close + r)
    ensures open + (j + sep + y) + close + r == (open + j) + (sep + y) + (close + r)
    ensures open + (j + sep + y) + close == (open + j) + (sep + y) + close
  {
  }

  lemma RegroupTriple(head: string, a: string, b: string, c: string, close: string)
    ensures head + (a + b + c) + close == head + a + b + c + close
  {
  }

  lemma RegroupPort(head: string, sep: string, dir: string, space: string, v: string, close: string)
    ensures head + (sep + (dir + space + v)) + close == head + sep + dir + space + v + close
  {
  }

  /** The two renderings a parameter appended to a non-empty list relates, split around the appended text. */
  lemma FunctionSnocParts(r: Type, ps: seq<Type>, x: Type)
    requires WellFormed(Func(r, ps)) && WellFormed(x) && ps != []
    ensures WellFormed(Func(r, ps + [x])) && AllWellFormed(ps)
    ensures TypeToString(Func(r, ps)) == "func (" + Join(Renderings(ps), ", ") + ("): " + TypeToString(r))
    ensures TypeToString(Func(r, ps + [x])) ==
      "func (" + Join(Renderings(ps), ", ") + (", " + TypeToString(x)) + ("): " + TypeToString(r))
  {
    FuncWellFormedSnoc(r, ps, x);
    FunctionTextGeneral(r, ps);
    RenderingsSnoc(ps, x);
    FunctionTextGeneral(r, ps + [x]);
    JoinSnoc(Renderings(ps), TypeToString(x), ", ");
    Regroup("func (", Join(Renderings(ps), ", "), ", ", TypeToString(x), "): ", TypeToString(r));
  }

  /** Appending a parameter to a non-empty list inserts a comma and the parameter before `): ` and the return type. */
  lemma FunctionRenderingSnoc(r: Type, ps: seq<Type>, x: Type)
    requires WellFormed(Func(r, ps)) && WellFormed(x) && ps != []
    ensures WellFormed(Func(r, ps + [x]))
    ensures var s, tail := TypeToString(Func(r, ps)), "): " + TypeToString(r);
      |s| >= |tail| && s[|s| - |tail|..] == tail &&
      TypeToString(Func(r, ps + [x])) == s[..|s| - |tail|] + ", " + TypeToString(x) + tail
  {
    FunctionSnocParts(r, ps, x);
    InsertBeforeTail("func (" + Join(Renderings(ps), ", "), "): " + TypeToString(r), ", " + TypeToString(x),
      TypeToString(Func(r, ps)), TypeToString(Func(r, ps + [x])));
  }

  /** `portTypes.map(e => e.direction + ` ${typeToString(e.valueType)}`)`. */
  function PortRenderings(ps: seq<Type>): seq<string>
    requires forall i | 0 <= i < |ps| :: ps[i].Port? && WellFormed(ps[i])
  {
    seq(|ps|, i requires 0 <= i < |ps| => PortToString(ps[i]))
  }

  lemma InterfaceTextGeneral(ps: seq<Type>)
    requires WellFormed(Interface(ps))
    ensures forall i | 0 <= i < |ps| :: ps[i].Port? && WellFormed(ps[i])
    ensures TypeToString(Interface(ps)) == "interface (" + Join(PortRenderings(ps), ", ") + ")"
  {
  }

  lemma PortRenderingsSnoc(ps: seq<Type>, p: Type)
    requires forall i | 0 <= i < |ps| :: ps[i].Port? && WellFormed(ps[i])
    requires p.Port? && WellFormed(p)
    ensures forall i | 0 <= i < |ps + [p]| :: (ps + [p])[i].Port? && WellFormed((ps + [p])[i])
    ensures PortRenderings(ps + [p]) == PortRenderings(ps) + [PortToString(p)]
  {
    assert forall i | 0 <= i < |ps| :: (ps + [p])[i] == ps[i];
  }

  /** The two renderings a port appended to a non-empty interface relates, split around the appended text. */
  lemma InterfaceSnocParts(ps: seq<Type>, p: Type)
    requires WellFormed(Interface(ps)) && p.Port? && WellFormed(p) && ps != []
    ensures WellFormed(Interface(ps + [p]))
    ensures forall i | 0 <= i < |ps| :: ps[i].Port? && WellFormed(ps[i])
    ensures TypeToString(Interface(ps)) == "interface (" + Join(PortRenderings(ps), ", ") + ")"
    ensures TypeToString(Interface(ps + [p])) ==
      "interface (" + Join(PortRenderings(ps), ", ") + (", " + PortToString(p)) + ")"
  {
    InterfaceTextGeneral(ps);
    PortRenderingsSnoc(ps, p);
    InterfaceTextGeneral(ps + [p]);
    JoinSnoc(PortRenderings(ps), PortToString(p), ", ");
    Regroup("interface (", Join(PortRenderings(ps), ", "), ", ", PortToString(p), ")", "");
  }

  /** Appending a port to a non-empty interface inserts a comma and `dir T` before the closing bracket. */
  lemma InterfaceRenderingSnoc(ps: seq<Type>, p: Type)
    requires WellFormed(Interface(ps)) && p.Port? && WellFormed(p) && ps != []
    ensures WellFormed(Interface(ps + [p]))
    ensures var s := TypeToString(Interface(ps));
      |s| >= 1 && s[|s| - 1] == ')' &&
      TypeToString(Interface(ps + [p])) ==
        s[..|s| - 1] + ", " + DirectionText(p.direction) + " " + TypeToString(p.valueType) + ")"
  {
    InterfaceSnocParts(ps, p);
    var s := TypeToString(Interface(ps));
    InsertBeforeTail("interface (" + Join(PortRenderings(ps), ", "), ")", ", " + PortToString(p),
      s, TypeToString(Interface(ps + [p])));
    RegroupPort(s[..|s| - 1], ", ", DirectionText(p.direction), " ", TypeToString(p.valueType), ")");
  }

  /** The non-union types a type stands for once nested unions are flattened, in order. */
  function Leaves(t: Type): seq<Type>
    decreases t, 1, 0
  {
    if t.Union? then LeavesFrom(t, 0) else [t]
  }

  function LeavesFrom(u: Type, i: nat): seq<Type>
    requires u.Union? && i <= |u.types|
    decreases u, 0, |u.types| - i
  {
    if i == |u.types| then [] else Leaves(u.types[i]) + LeavesFrom(u, i + 1)
  }

  /** Flattening leaves no union behind. */
  lemma {:induction false} LeavesAreNotUnions(t: Type)
    ensures forall i | 0 <= i < |Leaves(t)| :: !Leaves(t)[i].Union?
    decreases t, 1, 0
  {
    if t.Union? {
      LeavesFromAreNotUnions(t, 0);
    } else {
      assert Leaves(t) == [t];
    }
  }

  lemma {:induction false} LeavesFromAreNotUnions(u: Type, i: nat)
    requires u.Union? && i <= |u.types|
    ensures forall k | 0 <= k < |LeavesFrom(u, i)| :: !LeavesFrom(u, i)[k].Union?
    decreases u, 0, |u.types| - i
  {
    if i < |u.types| {
      var a, b := Leaves(u.types[i]), LeavesFrom(u, i + 1);
      LeavesAreNotUnions(u.types[i]);
      LeavesFromAreNotUnions(u, i + 1);
      assert LeavesFrom(u, i) == a + b;
      assert forall k | 0 <= k < |b| :: (a + b)[|a| + k] == b[k];
    }
  }
}
