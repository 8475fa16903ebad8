/**
 The sup-dto side: types, values and the order in which a visitor is told about them.

 sup-dto itself is not part of this model; what is here is the little the translation relies on.
 */
module AnyValues {

  type byte = b: int | 0 <= b < 256

  datatype ScalarCode =
    | Bool | Char8 | Int8 | UInt8 | Int16 | UInt16 | Int32 | UInt32 | Int64 | UInt64
    | Float32 | Float64 | String

  /** Numbers are integers; floating point numbers and characters are the words that encode them. */
  datatype Data = Number(n: int) | Text(bytes: seq<byte>)

  datatype AnyType =
    | EmptyType
    | ScalarType(code: ScalarCode)
    | StructType(name: string, members: seq<MemberType>)
    | ArrayType(name: string, size: nat, element: AnyType)

  datatype MemberType = MemberType(name: string, typ: AnyType)

  datatype AnyValue =
    | Empty
    | Scalar(code: ScalarCode, data: Data)
    | Struct(name: string, members: seq<Member>)
    | Array(name: string, element: AnyType, items: seq<AnyValue>)

  datatype Member = Member(name: string, value: AnyValue)

  function TypeOf(v: AnyValue): AnyType {
    match v
    case Empty => EmptyType
    case Scalar(code, _) => ScalarType(code)
    case Struct(name, ms) =>
      StructType(name, seq(|ms|, i requires 0 <= i < |ms| => MemberType(ms[i].name, TypeOf(ms[i].value))))
    case Array(name, element, items) => ArrayType(name, |items|, element)
  }

  function MinNumber(code: ScalarCode): int {
    match code
    case Int8 => -0x80
    case Int16 => -0x8000
    case Int32 => -0x8000_0000
    case Int64 => -0x8000_0000_0000_0000
    case _ => 0
  }

  function MaxNumber(code: ScalarCode): int {
    match code
    case Bool => 1
    case Int8 => 0x7F
    case Char8 | UInt8 => 0xFF
    case Int16 => 0x7FFF
    case UInt16 => 0xFFFF
    case Int32 => 0x7FFF_FFFF
    case UInt32 | Float32 => 0xFFFF_FFFF
    case Int64 => 0x7FFF_FFFF_FFFF_FFFF
    case UInt64 | Float64 => 0xFFFF_FFFF_FFFF_FFFF
    case String => 0
  }

  predicate Fits(code: ScalarCode, data: Data) {
    if code.String? then data.Text? else data.Number? && MinNumber(code) <= data.n <= MaxNumber(code)
  }

  function DefaultData(code: ScalarCode): (d: Data)
    ensures Fits(code, d)
  {
    if code.String? then Text([]) else Number(0)
  }

  predicate DistinctNames(ms: seq<Member>) {
    forall i, j :: 0 <= i < j < |ms| ==> ms[i].name != ms[j].name
  }

  /** What sup-dto guarantees of every AnyType: unique member names. */
  ghost predicate WellFormedType(t: AnyType) {
    match t
    case EmptyType => true
    case ScalarType(_) => true
    case StructType(_, ms) =>
      && (forall i, j :: 0 <= i < j < |ms| ==> ms[i].name != ms[j].name)
      && forall i :: 0 <= i < |ms| ==> WellFormedType(ms[i].typ)
    case ArrayType(_, _, element) => WellFormedType(element)
  }

  /** What sup-dto guarantees of every AnyValue: numbers in range, unique member names, uniform arrays. */
  ghost predicate WellFormed(v: AnyValue) {
    match v
    case Empty => true
    case Scalar(code, data) => Fits(code, data)
    case Struct(_, ms) => DistinctNames(ms) && forall i :: 0 <= i < |ms| ==> WellFormed(ms[i].value)
    case Array(_, element, items) =>
      && WellFormedType(element)
      && forall i :: 0 <= i < |items| ==> WellFormed(items[i]) && TypeOf(items[i]) == element
  }

  lemma {:induction false} MemberTypes(v: AnyValue)
    requires v.Struct?
    ensures TypeOf(v).StructType? && TypeOf(v).name == v.name && |TypeOf(v).members| == |v.members|
    ensures forall i :: 0 <= i < |v.members| ==>
      TypeOf(v).members[i] == MemberType(v.members[i].name, TypeOf(v.members[i].value))
  {
  }

  lemma {:induction false} WellFormedValuesHaveWellFormedTypes(v: AnyValue)
    requires WellFormed(v)
    ensures WellFormedType(TypeOf(v))
  {
    if v.Struct? {
      MemberTypes(v);
      forall i | 0 <= i < |v.members| ensures WellFormedType(TypeOf(v).members[i].typ) {
        WellFormedValuesHaveWellFormedTypes(v.members[i].value);
      }
    }
  }

  // ---------------------------------------------------------------------------------------------
  // What can be translated to PVXS and back
  // ---------------------------------------------------------------------------------------------

  /** No member without a type, and no array of arrays or of nothing. */
  ghost predicate SupportedType(t: AnyType) {
    match t
    case EmptyType => false
    case ScalarType(_) => true
    case StructType(_, ms) => forall i :: 0 <= i < |ms| ==> SupportedType(ms[i].typ)
    case ArrayType(_, _, element) => !element.ArrayType? && SupportedType(element)
  }

  /** Like SupportedType, and no array of structures is without elements. */
  ghost predicate Supported(v: AnyValue) {
    match v
    case Empty => false
    case Scalar(_, _) => true
    case Struct(_, ms) => forall i :: 0 <= i < |ms| ==> Supported(ms[i].value)
    case Array(_, element, items) =>
      && (element.ScalarType? || (element.StructType? && items != []))
      && forall i :: 0 <= i < |items| ==> Supported(items[i])
  }

  /** Nothing in it is Empty. */
  ghost predicate Filled(v: AnyValue) {
    match v
    case Empty => false
    case Scalar(_, _) => true
    case Struct(_, ms) => forall i :: 0 <= i < |ms| ==> Filled(ms[i].value)
    case Array(_, _, items) => forall i :: 0 <= i < |items| ==> Filled(items[i])
  }

  lemma {:induction false} SupportedHasSupportedType(v: AnyValue)
    requires WellFormed(v) && Supported(v)
    ensures SupportedType(TypeOf(v))
  {
    match v
    case Scalar(_, _) =>
    case Struct(_, ms) =>
      forall i | 0 <= i < |ms| ensures SupportedType(TypeOf(ms[i].value)) {
        SupportedHasSupportedType(ms[i].value);
      }
    case Array(_, element, items) =>
      if element.StructType? {
        SupportedHasSupportedType(items[0]);
      }
  }

  // ---------------------------------------------------------------------------------------------
  // Visiting order
  // ---------------------------------------------------------------------------------------------

  /** One callback of a visitor; T is AnyType or AnyValue. */
  datatype Event<T> =
    | EmptyProlog(node: T) | EmptyEpilog(node: T)
    | StructProlog(node: T) | StructMemberSeparator | StructEpilog(node: T)
    | MemberProlog(name: string) | MemberEpilog(name: string)
    | ArrayProlog(node: T) | ArrayElementSeparator | ArrayEpilog(node: T)
    | ScalarProlog(node: T) | ScalarEpilog(node: T)

  /** SerializeAnyType: the element type of an array is visited once. */
  function TypeEvents(t: AnyType): seq<Event<AnyType>>
    decreases t, 0
  {
    match t
    case EmptyType => [EmptyProlog(t), EmptyEpilog(t)]
    case ScalarType(_) => [ScalarProlog(t), ScalarEpilog(t)]
    case StructType(_, ms) => [StructProlog(t)] + MemberTypeEvents(ms, 0) + [StructEpilog(t)]
    case ArrayType(_, _, element) => [ArrayProlog(t)] + TypeEvents(element) + [ArrayEpilog(t)]
  }

  function MemberTypeEvents(ms: seq<MemberType>, i: nat): seq<Event<AnyType>>
    requires i <= |ms|
    decreases ms, |ms| - i
  {
    if i == |ms| then []
    else
      (if i == 0 then [] else [StructMemberSeparator])
      + [MemberProlog(ms[i].name)] + TypeEvents(ms[i].typ) + [MemberEpilog(ms[i].name)]
      + MemberTypeEvents(ms, i + 1)
  }

  /** SerializeAnyValue: separators between elements, none after the last. */
  function ValueEvents(v: AnyValue): seq<Event<AnyValue>>
    decreases v, 0
  {
    match v
    case Empty => [EmptyProlog(v), EmptyEpilog(v)]
    case Scalar(_, _) => [ScalarProlog(v), ScalarEpilog(v)]
    case Struct(_, ms) => [StructProlog(v)] + MemberEvents(ms, 0) + [StructEpilog(v)]
    case Array(_, _, items) => [ArrayProlog(v)] + ItemEvents(items, 0) + [ArrayEpilog(v)]
  }

  function MemberEvents(ms: seq<Member>, i: nat): seq<Event<AnyValue>>
    requires i <= |ms|
    decreases ms, |ms| - i
  {
    if i == |ms| then []
    else
      (if i == 0 then [] else [StructMemberSeparator])
      + [MemberProlog(ms[i].name)] + ValueEvents(ms[i].value) + [MemberEpilog(ms[i].name)]
      + MemberEvents(ms, i + 1)
  }

  function ItemEvents(items: seq<AnyValue>, i: nat): seq<Event<AnyValue>>
    requires i <= |items|
    decreases items, |items| - i
  {
    if i == |items| then []
    else
      (if i == 0 then [] else [ArrayElementSeparator])
      + ValueEvents(items[i]) + ItemEvents(items, i + 1)
  }
}
