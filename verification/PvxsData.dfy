/** The PVXS side: type codes, type definitions, value trees and the correspondence of type codes. */
module PvxsData {
  import opened Results
  import opened AnyValues

  datatype Kind =
    | Bool | Int8 | UInt8 | Int16 | UInt16 | Int32 | UInt32 | Int64 | UInt64 | Float32 | Float64 | String

  datatype TypeCode =
    | NullCode | Base(kind: Kind) | ArrayOf(kind: Kind) | StructCode | StructACode
    | UnionCode | UnionACode | AnyCode | AnyACode

  /** pvxs::TypeDef; NoType is the default constructed one. */
  datatype TypeDef =
    | NoType
    | ScalarDef(kind: Kind)
    | ScalarArrayDef(kind: Kind)
    | StructDef(id: string, fields: seq<FieldDef>)
    | StructArrayDef(id: string, fields: seq<FieldDef>)

  datatype FieldDef = FieldDef(name: string, def: TypeDef)

  /** What a pvxs::Value denotes once sharing is forgotten. Foreign covers unions and the any types. */
  datatype Tree =
    | Null
    | Leaf(kind: Kind, data: Data)
    | Leaves(kind: Kind, items: seq<Data>)
    | Node(id: string, fields: seq<Field>)
    | Nodes(elems: seq<Tree>)
    | Foreign(code: ForeignCode)

  datatype Field = Field(name: string, tree: Tree)

  datatype ForeignCode = Union | UnionArray | AnyOne | AnyArray

  // ---------------------------------------------------------------------------------------------
  // Type codes
  // ---------------------------------------------------------------------------------------------

  /** Correspondence of scalar codes; the two tables of the source agree on it. */
  function KindOf(code: ScalarCode): Kind {
    match code
    case Bool => Kind.Bool
    case Char8 => Kind.UInt8
    case Int8 => Kind.Int8
    case UInt8 => Kind.UInt8
    case Int16 => Kind.Int16
    case UInt16 => Kind.UInt16
    case Int32 => Kind.Int32
    case UInt32 => Kind.UInt32
    case Int64 => Kind.Int64
    case UInt64 => Kind.UInt64
    case Float32 => Kind.Float32
    case Float64 => Kind.Float64
    case String => Kind.String
  }

  /** The reverse lookup finds the only code of the table with this kind; char8 is not in the table. */
  function CodeOf(kind: Kind): (code: ScalarCode)
    ensures KindOf(code) == kind && !code.Char8?
  {
    match kind
    case Bool => ScalarCode.Bool
    case Int8 => ScalarCode.Int8
    case UInt8 => ScalarCode.UInt8
    case Int16 => ScalarCode.Int16
    case UInt16 => ScalarCode.UInt16
    case Int32 => ScalarCode.Int32
    case UInt32 => ScalarCode.UInt32
    case Int64 => ScalarCode.Int64
    case UInt64 => ScalarCode.UInt64
    case Float32 => ScalarCode.Float32
    case Float64 => ScalarCode.Float64
    case String => ScalarCode.String
  }

  /** How a number or text is represented; the two sides name the same representations differently. */
  datatype Representation = Logical | Signed(bits: nat) | Unsigned(bits: nat) | Floating(bits: nat) | Characters

  function CodeRepresentation(code: ScalarCode): Representation {
    match code
    case Bool => Logical
    case Char8 => Unsigned(8)
    case Int8 => Signed(8)
    case UInt8 => Unsigned(8)
    case Int16 => Signed(16)
    case UInt16 => Unsigned(16)
    case Int32 => Signed(32)
    case UInt32 => Unsigned(32)
    case Int64 => Signed(64)
    case UInt64 => Unsigned(64)
    case Float32 => Floating(32)
    case Float64 => Floating(64)
    case String => Characters
  }

  function KindRepresentation(kind: Kind): Representation {
    match kind
    case Bool => Logical
    case Int8 => Signed(8)
    case UInt8 => Unsigned(8)
    case Int16 => Signed(16)
    case UInt16 => Unsigned(16)
    case Int32 => Signed(32)
    case UInt32 => Unsigned(32)
    case Int64 => Signed(64)
    case UInt64 => Unsigned(64)
    case Float32 => Floating(32)
    case Float64 => Floating(64)
    case String => Characters
  }

  /** The correspondence keeps the representation, and is the only one that does. */
  lemma {:induction false} KindsCorrespond(code: ScalarCode, kind: Kind)
    ensures kind == KindOf(code) <==> KindRepresentation(kind) == CodeRepresentation(code)
    ensures !code.Char8? ==> (code == CodeOf(kind) <==> KindRepresentation(kind) == CodeRepresentation(code))
  {
  }

  function BaseCode(t: AnyType): Result<TypeCode> {
    match t
    case EmptyType => Ok(NullCode)
    case ScalarType(code) => Ok(Base(KindOf(code)))
    case StructType(_, _) => Ok(StructCode)
    case ArrayType(_, _, _) => Err(UnknownAnyTypeCode)
  }

  function ArrayCode(element: AnyType): Result<TypeCode> {
    match element
    case ScalarType(code) => Ok(ArrayOf(KindOf(code)))
    case StructType(_, _) => Ok(StructACode)
    case _ => Err(UnknownAnyTypeCode)
  }

  function PvxsCode(t: AnyType): Result<TypeCode> {
    if t.ArrayType? then ArrayCode(t.element) else BaseCode(t)
  }

  /** isarray() also holds of Null. */
  predicate IsArrayCode(code: TypeCode) {
    code.NullCode? || code.ArrayOf? || code.StructACode? || code.UnionACode? || code.AnyACode?
  }

  predicate IsScalarArray(code: TypeCode) {
    code != NullCode && code != StructACode && IsArrayCode(code)
  }

  function CodeOfTree(tree: Tree): TypeCode {
    match tree
    case Null => NullCode
    case Leaf(k, _) => Base(k)
    case Leaves(k, _) => ArrayOf(k)
    case Node(_, _) => StructCode
    case Nodes(_) => StructACode
    case Foreign(Union) => UnionCode
    case Foreign(UnionArray) => UnionACode
    case Foreign(AnyOne) => AnyCode
    case Foreign(AnyArray) => AnyACode
  }

  // ---------------------------------------------------------------------------------------------
  // The translation, by structure
  // ---------------------------------------------------------------------------------------------

  function EncodeType(t: AnyType): TypeDef {
    match t
    case EmptyType => NoType
    case ScalarType(code) => ScalarDef(KindOf(code))
    case StructType(name, ms) => StructDef(name, EncodeMembers(ms))
    case ArrayType(_, _, element) =>
      match element
      case ScalarType(code) => ScalarArrayDef(KindOf(code))
      case StructType(name, ms) => StructArrayDef(name, EncodeMembers(ms))
      case _ => NoType
  }

  function EncodeMembers(ms: seq<MemberType>): seq<FieldDef> {
    seq(|ms|, i requires 0 <= i < |ms| => FieldDef(ms[i].name, EncodeType(ms[i].typ)))
  }

  function Encode(v: AnyValue): Tree {
    match v
    case Empty => Null
    case Scalar(code, data) => Leaf(KindOf(code), data)
    case Struct(name, ms) =>
      Node(name, seq(|ms|, i requires 0 <= i < |ms| => Field(ms[i].name, Encode(ms[i].value))))
    case Array(_, element, items) =>
      if element.ScalarType? then Leaves(KindOf(element.code), ItemData(items))
      else Nodes(seq(|items|, i requires 0 <= i < |items| => Encode(items[i])))
  }

  function CodeOfDef(def: TypeDef): TypeCode {
    match def
    case NoType => NullCode
    case ScalarDef(k) => Base(k)
    case ScalarArrayDef(k) => ArrayOf(k)
    case StructDef(_, _) => StructCode
    case StructArrayDef(_, _) => StructACode
  }

  /** The code looked up for a type is the code of its translation and of the translation of all its values. */
  lemma {:induction false} CodesAgree(v: AnyValue)
    requires v.Empty? || SupportedType(TypeOf(v))
    ensures PvxsCode(TypeOf(v)) == Ok(CodeOfDef(EncodeType(TypeOf(v)))) == Ok(CodeOfTree(Encode(v)))
  {
    if v.Array? {
      assert v.element.ScalarType? || v.element.StructType?;
    }
  }

  // ---------------------------------------------------------------------------------------------
  // The translation into a given definition
  // ---------------------------------------------------------------------------------------------

  /** No member without a definition, and unique member names. */
  ghost predicate Complete(def: TypeDef) {
    match def
    case NoType => false
    case StructDef(_, fields) => UniqueNames(fields) && forall i :: 0 <= i < |fields| ==> Complete(fields[i].def)
    case StructArrayDef(_, fields) => UniqueNames(fields) && forall i :: 0 <= i < |fields| ==> Complete(fields[i].def)
    case _ => true
  }

  ghost predicate UniqueNames(fields: seq<FieldDef>) {
    forall i, j :: 0 <= i < j < |fields| ==> fields[i].name != fields[j].name
  }

  function MemberDef(def: TypeDef, i: nat): TypeDef {
    if def.StructDef? && i < |def.fields| then def.fields[i].def else NoType
  }

  /** The definition of one element of an array of structures. */
  function ElementDef(def: TypeDef): TypeDef {
    if def.StructArrayDef? then StructDef(def.id, def.fields) else NoType
  }

  /** The definition has the layout of the type; for a member of the Empty type any definition will do. */
  ghost predicate FitsType(t: AnyType, def: TypeDef)
    decreases t
  {
    match t
    case EmptyType => !def.NoType?
    case ScalarType(code) => def == ScalarDef(KindOf(code))
    case StructType(name, ms) =>
      && def.StructDef? && def.id == name && |def.fields| == |ms|
      && forall i :: 0 <= i < |ms| ==> def.fields[i].name == ms[i].name && FitsType(ms[i].typ, MemberDef(def, i))
    case ArrayType(_, _, element) =>
      if element.ScalarType? then def == ScalarArrayDef(KindOf(element.code))
      else element.StructType? && def.StructArrayDef? && FitsType(element, ElementDef(def))
  }

  /** What a slot of this definition holds before anything is written to it. */
  function DefaultTree(def: TypeDef): Tree {
    match def
    case NoType => Null
    case ScalarDef(k) => Leaf(k, DefaultOf(k))
    case ScalarArrayDef(k) => Leaves(k, [])
    case StructDef(id, fields) =>
      Node(id, seq(|fields|, i requires 0 <= i < |fields| => Field(fields[i].name, DefaultTree(fields[i].def))))
    case StructArrayDef(_, _) => Nodes([])
  }

  function DefaultOf(kind: Kind): Data {
    DefaultData(CodeOf(kind))
  }

  /** Like Encode, but what is Empty leaves the default of the definition in place. */
  function EncodeInto(v: AnyValue, def: TypeDef): Tree
    decreases v
  {
    match v
    case Empty => DefaultTree(def)
    case Scalar(code, data) => Leaf(KindOf(code), data)
    case Struct(name, ms) =>
      Node(name, seq(|ms|, i requires 0 <= i < |ms| => Field(ms[i].name, EncodeInto(ms[i].value, MemberDef(def, i)))))
    case Array(_, element, items) =>
      if element.ScalarType? then Leaves(KindOf(element.code), ItemData(items))
      else Nodes(seq(|items|, i requires 0 <= i < |items| => EncodeInto(items[i], ElementDef(def))))
  }

  lemma {:induction false} FilledEncodes(v: AnyValue, def: TypeDef)
    requires Filled(v)
    ensures EncodeInto(v, def) == Encode(v)
    decreases v
  {
    match v
    case Scalar(_, _) =>
    case Struct(_, ms) =>
      forall i | 0 <= i < |ms| ensures EncodeInto(v, def).fields[i] == Encode(v).fields[i] {
        FilledEncodes(ms[i].value, MemberDef(def, i));
      }
      assert EncodeInto(v, def).fields == Encode(v).fields;
    case Array(_, element, items) =>
      if !element.ScalarType? {
        forall i | 0 <= i < |items| ensures EncodeInto(v, def).elems[i] == Encode(v).elems[i] {
          FilledEncodes(items[i], ElementDef(def));
        }
        assert EncodeInto(v, def).elems == Encode(v).elems;
      }
  }

  /** The payloads of an array of scalars. */
  function ItemData(items: seq<AnyValue>): seq<Data> {
    seq(|items|, i requires 0 <= i < |items| => if items[i].Scalar? then items[i].data else Number(0))
  }
}
