/** The Channel Access byte codec: GetUpdateBuffer of the channel manager against ParseAnyValue of the helper. */
module ChannelCodec {
  import opened Results
  import opened AnyValues
  import opened ByteFormats
  import P = PvxsData

  datatype Dbr = STRING | ENUM | CHAR | SHORT | LONG | FLOAT | DOUBLE

  function DbrSize(d: Dbr): nat {
    match d
    case STRING => SLOT
    case ENUM | SHORT => 2
    case CHAR => 1
    case LONG | FLOAT => 4
    case DOUBLE => 8
  }

  function ScalarDbr(code: ScalarCode): Dbr {
    match code
    case Bool | Char8 | Int8 => CHAR
    case UInt8 | UInt16 | UInt32 | UInt64 => ENUM
    case Int16 => SHORT
    case Int32 => LONG
    case Int64 | String => STRING
    case Float32 => FLOAT
    case Float64 => DOUBLE
  }

  function ArrayDbr(code: ScalarCode): Dbr {
    match code
    case UInt32 | UInt64 => STRING
    case _ => ScalarDbr(code)
  }

  /** ChannelType; None stands for -1. */
  function ChannelType(t: AnyType): Option<Dbr> {
    match t
    case ScalarType(code) => Some(ScalarDbr(code))
    case ArrayType(_, _, ScalarType(code)) => Some(ArrayDbr(code))
    case _ => None
  }

  function Multiplicity(t: AnyType): nat {
    if t.ArrayType? && t.size > 0 then t.size else 1
  }

  predicate IsChannelType(t: AnyType) {
    ChannelType(t).Some?
  }

  /** Neither text nor enum slots: the bytes of the numbers themselves. */
  predicate IsRaw(t: AnyType)
    requires IsChannelType(t)
  {
    !ChannelType(t).value.STRING? && !ChannelType(t).value.ENUM?
  }

  /** All channel types but the arrays of size zero with text or enum slots, which are parsed by the JSON library. */
  predicate IsParsed(t: AnyType) {
    IsChannelType(t) && (t.ArrayType? && t.size == 0 ==> IsRaw(t))
  }

  // ---------------------------------------------------------------------------------------------
  // Encoding
  // ---------------------------------------------------------------------------------------------

  const QUOTE: byte := 34
  const OPEN_BRACKET: byte := 91
  const BACKSLASH: byte := 92
  const CLOSE_BRACKET: byte := 93

  function HexDigit(n: nat): byte
    requires n < 16
  {
    if n < 10 then ZERO + n else 55 + n
  }

  /** One byte inside a JSON string: quote, backslash and control characters are escaped. */
  function Escape(b: byte): (e: seq<byte>)
    ensures e != [] && forall i :: 0 <= i < |e| ==> e[i] >= 32
  {
    if b == QUOTE || b == BACKSLASH then [BACKSLASH, b]
    else if b == 8 then [BACKSLASH, 98]
    else if b == 9 then [BACKSLASH, 116]
    else if b == 10 then [BACKSLASH, 110]
    else if b == 12 then [BACKSLASH, 102]
    else if b == 13 then [BACKSLASH, 114]
    else if b < 32 then [BACKSLASH, 117, ZERO, ZERO, HexDigit(b / 16), HexDigit(b % 16)]
    else [b]
  }

  function Escaped(s: seq<byte>): (e: seq<byte>)
    ensures |e| >= |s| && forall i :: 0 <= i < |e| ==> e[i] >= 32
  {
    if s == [] then [] else Escape(s[0]) + Escaped(s[1..])
  }

  function HexValue(b: byte): Option<nat> {
    if 48 <= b <= 57 then Some(b - 48)
    else if 65 <= b <= 70 then Some(b - 55)
    else if 97 <= b <= 102 then Some(b - 87)
    else None
  }

  /** The byte that a two-character escape stands for. */
  function EscapedByte(b: byte): Option<byte> {
    match b
    case 34 => Some(34)
    case 47 => Some(47)
    case 92 => Some(92)
    case 98 => Some(8)
    case 102 => Some(12)
    case 110 => Some(10)
    case 114 => Some(13)
    case 116 => Some(9)
    case _ => None
  }

  /** A JSON parser's reading of the inside of a string, as far as single bytes are escaped. */
  function Unescaped(e: seq<byte>): Option<seq<byte>>
    decreases |e|
  {
    if e == [] then Some([])
    else if e[0] != 92 then
      if e[0] < 32 || e[0] == 34 then None else Prepended(e[0], Unescaped(e[1..]))
    else if |e| >= 2 && EscapedByte(e[1]).Some? then
      Prepended(EscapedByte(e[1]).value, Unescaped(e[2..]))
    else if |e| >= 6 && e[1] == 117 && e[2] == 48 == e[3] && HexValue(e[4]).Some? && HexValue(e[5]).Some? then
      Prepended(16 * HexValue(e[4]).value + HexValue(e[5]).value, Unescaped(e[6..]))
    else None
  }

  function Prepended(b: nat, s: Option<seq<byte>>): Option<seq<byte>> {
    if b < 256 && s.Some? then Some([b] + s.value) else None
  }

  /** What is printed reads back, for every string. */
  lemma {:induction false} EscapedReadsBack(s: seq<byte>)
    ensures Unescaped(Escaped(s)) == Some(s)
  {
    if s != [] {
      EscapedReadsBack(s[1..]);
      FirstReadsBack(s[0], Escaped(s[1..]));
      assert [s[0]] + s[1..] == s;
    }
  }

  /** No more is escaped than must be, and in the short form where there is one. */
  lemma {:induction false} EscapesAreShort(b: byte)
    ensures Escape(b) == [b] <==> b >= 32 && b != 34 && b != 92
    ensures |Escape(b)| == 6 <==> b < 32 && forall c :: EscapedByte(c) != Some(b)
  {
    assert EscapedByte(98) == Some(8) && EscapedByte(116) == Some(9) && EscapedByte(110) == Some(10);
    assert EscapedByte(102) == Some(12) && EscapedByte(114) == Some(13);
  }

  lemma {:induction false} FirstReadsBack(b: byte, rest: seq<byte>)
    ensures Unescaped(Escape(b) + rest) == Prepended(b, Unescaped(rest))
  {
    var e := Escape(b) + rest;
    assert e[|Escape(b)|..] == rest;
    if b < 32 && |Escape(b)| == 6 {
      assert HexValue(HexDigit(b / 16)) == Some(b / 16) && HexValue(HexDigit(b % 16)) == Some(b % 16);
    }
  }

  /** ValuesToJSONString for numbers, strings and arrays of them. */
  function JsonText(v: AnyValue): seq<byte> {
    match v
    case Scalar(_, Number(n)) => PrintDecimal(n)
    case Scalar(_, Text(s)) => [QUOTE] + Escaped(s) + [QUOTE]
    case Array(_, _, items) => [OPEN_BRACKET] + JsonItems(items) + [CLOSE_BRACKET]
    case _ => [110, 117, 108, 108]
  }

  function JsonItems(items: seq<AnyValue>): seq<byte> {
    if items == [] then []
    else if |items| == 1 then JsonText(items[0])
    else JsonText(items[0]) + [44] + JsonItems(items[1..])
  }

  /** GetStringUpdateBuffer. */
  function StringBuffer(v: AnyValue): seq<byte> {
    Slot(if v.Scalar? && v.data.Text? then v.data.bytes else JsonText(v))
  }

  /** GetUnsignedEnumUpdateBuffer: empty when the value does not convert to 16 bits. */
  function EnumBuffer(v: AnyValue): seq<byte> {
    if v.Scalar? && v.data.Number? && 0 <= v.data.n <= 0xFFFF then ToBytes(UInt16, v.data.n) else []
  }

  function RawBuffer(v: AnyValue): seq<byte> {
    if v.Scalar? && Fits(v.code, v.data) && v.data.Number? then ToBytes(v.code, v.data.n) else []
  }

  function SlotBuffer(d: Dbr, v: AnyValue): seq<byte> {
    match d
    case STRING => StringBuffer(v)
    case ENUM => EnumBuffer(v)
    case _ => RawBuffer(v)
  }

  function Concat(d: Dbr, items: seq<AnyValue>, n: nat): seq<byte>
    requires n <= |items|
  {
    if n == 0 then [] else Concat(d, items, n - 1) + SlotBuffer(d, items[n - 1])
  }

  /** An enum slot without bytes makes the whole buffer empty. */
  predicate Complete(d: Dbr, items: seq<AnyValue>, n: nat)
    requires n <= |items|
  {
    forall i :: 0 <= i < n ==> SlotBuffer(d, items[i]) != []
  }

  /** GetUpdateBuffer on a value that was converted to the channel's type; empty means refused. */
  function UpdateBuffer(v: AnyValue): seq<byte>
    requires IsChannelType(TypeOf(v))
  {
    var d := ChannelType(TypeOf(v)).value;
    if v.Scalar? then SlotBuffer(d, v)
    else if d.STRING? || d.ENUM? then
      if |v.items| > 1 then (if Complete(d, v.items, |v.items|) then Concat(d, v.items, |v.items|) else [])
      else SlotBuffer(d, v)
    else Concat(d, v.items, |v.items|)
  }

  /** The loops over the elements, with the early return of the enum encoder. */
  method ConcatSlots(d: Dbr, items: seq<AnyValue>) returns (buffer: seq<byte>)
    requires d.STRING? || d.ENUM?
    ensures buffer == if Complete(d, items, |items|) then Concat(d, items, |items|) else []
  {
    buffer := [];
    for i := 0 to |items|
      invariant Complete(d, items, i) && buffer == Concat(d, items, i)
    {
      var slot := SlotBuffer(d, items[i]);
      if |slot| == 0 {
        return [];
      }
      buffer := buffer + slot;
    }
  }

  /** GetUpdateBuffer: the branch by channel type and by the number of elements. */
  method GetUpdateBuffer(v: AnyValue) returns (buffer: seq<byte>)
    requires IsChannelType(TypeOf(v))
    ensures buffer == UpdateBuffer(v)
  {
    var d := ChannelType(TypeOf(v)).value;
    if (d.STRING? || d.ENUM?) && Multiplicity(TypeOf(v)) > 1 {
      buffer := ConcatSlots(d, v.items);
    } else if v.Scalar? || d.STRING? || d.ENUM? {
      buffer := SlotBuffer(d, v);
    } else {
      buffer := Concat(d, v.items, |v.items|);
    }
  }

  // ---------------------------------------------------------------------------------------------
  // Decoding
  // ---------------------------------------------------------------------------------------------

  function InRange(code: ScalarCode, n: int): AnyValue {
    if !code.String? && MinNumber(code) <= n <= MaxNumber(code) then Scalar(code, Number(n)) else Empty
  }

  /** One element from the bytes of its slot; Empty when it does not parse or convert. */
  function DecodeSlot(d: Dbr, code: ScalarCode, slot: seq<byte>): AnyValue {
    match d
    case STRING =>
      var text := UntilNul(slot);
      if code.String? then Scalar(code, Text(text))
      else
        var n := ParseDecimal(text);
        if n.Some? then InRange(code, n.value) else Empty
    case ENUM => InRange(code, FromBytes(UInt16, slot))
    case _ =>
      if code.Bool? then Scalar(code, Number(if FromBytes(Char8, slot) != 0 then 1 else 0))
      else Scalar(code, Number(FromBytes(code, slot)))
  }

  function SlotAt(d: Dbr, buffer: seq<byte>, i: nat): seq<byte>
    requires (i + 1) * DbrSize(d) <= |buffer|
  {
    assert i * DbrSize(d) + DbrSize(d) == (i + 1) * DbrSize(d);
    buffer[i * DbrSize(d)..(i + 1) * DbrSize(d)]
  }

  lemma {:induction false} SlotInBuffer(d: Dbr, count: nat, i: nat)
    requires i < count
    ensures (i + 1) * DbrSize(d) <= count * DbrSize(d)
  {
    assert count * DbrSize(d) == (i + 1) * DbrSize(d) + (count - i - 1) * DbrSize(d);
  }

  function DefaultValue(code: ScalarCode): AnyValue {
    Scalar(code, DefaultData(code))
  }

  /** The i-th element of an array that received `count` elements. */
  function Element(d: Dbr, code: ScalarCode, count: nat, buffer: seq<byte>, i: nat): AnyValue
    requires count * DbrSize(d) <= |buffer|
  {
    if i < count then
      SlotInBuffer(d, count, i);
      DecodeSlot(d, code, SlotAt(d, buffer, i))
    else DefaultValue(code)
  }

  function Elements(d: Dbr, code: ScalarCode, size: nat, count: nat, buffer: seq<byte>): seq<AnyValue>
    requires count * DbrSize(d) <= |buffer|
  {
    seq(size, i requires 0 <= i < size => Element(d, code, count, buffer, i))
  }

  /** ParseBooleans takes an array of size zero for a scalar. */
  predicate IsEmptyBooleanArray(t: AnyType) {
    t.ArrayType? && t.size == 0 && t.element == ScalarType(Bool)
  }

  function BytesRead(t: AnyType, count: nat): nat
    requires IsChannelType(t)
  {
    if IsEmptyBooleanArray(t) then 1 else count * DbrSize(ChannelType(t).value)
  }

  /** ParseAnyValue, for a count that VerifyCount accepts and a buffer that holds the bytes that are read. */
  function ParseAnyValue(t: AnyType, count: nat, buffer: seq<byte>): Result<AnyValue>
    requires IsParsed(t) && VerifyCount(t, count) && BytesRead(t, count) <= |buffer|
  {
    var d := ChannelType(t).value;
    if t.ScalarType? then Ok(DecodeSlot(d, t.code, buffer[..DbrSize(d)]))
    else if IsEmptyBooleanArray(t) then Ok(DecodeSlot(d, Bool, buffer[..1]))
    else
      var items := Elements(d, t.element.code, t.size, count, buffer);
      if Empty in items then Err(InvalidConversion) else Ok(Array(t.name, t.element, items))
  }

  predicate VerifyCount(t: AnyType, count: int) {
    if t.ArrayType? then 0 <= count <= t.size else count == 1
  }

  /** The library's buffer holds the announced elements. */
  predicate CanRead(t: AnyType, count: int, buffer: Option<seq<byte>>)
    requires IsChannelType(t)
  {
    buffer.Some? && VerifyCount(t, count) ==> BytesRead(t, count) <= |buffer.value|
  }

  /** CAMonitorWrapper::operator(): the value is left Empty without data or with a wrong count. */
  function MonitorValue(t: AnyType, count: int, buffer: Option<seq<byte>>): Result<AnyValue>
    requires IsParsed(t) && CanRead(t, count, buffer)
  {
    if buffer.Some? && VerifyCount(t, count) then ParseAnyValue(t, count, buffer.value) else Ok(Empty)
  }

  /** The loop of the array decoders: elements are assigned in place into an array of defaults. */
  method ParseArray(t: AnyType, count: nat, buffer: seq<byte>) returns (r: Result<AnyValue>)
    requires IsParsed(t) && t.ArrayType? && count <= t.size && BytesRead(t, count) <= |buffer|
    ensures r == ParseAnyValue(t, count, buffer)
  {
    if t.size == 0 && t.element == ScalarType(Bool) {
      return Ok(DecodeSlot(CHAR, Bool, buffer[..1]));
    }
    var d, code := ChannelType(t).value, t.element.code;
    ghost var all := Elements(d, code, t.size, count, buffer);
    var items := seq(t.size, _ => DefaultValue(code));
    for i := 0 to count
      invariant |items| == t.size && Empty !in items
      invariant forall k :: 0 <= k < i ==> items[k] == all[k]
      invariant forall k :: i <= k < t.size ==> items[k] == DefaultValue(code)
    {
      SlotInBuffer(d, count, i);
      var v := DecodeSlot(d, code, SlotAt(d, buffer, i));
      assert v == all[i];
      if v.Empty? {
        return Err(InvalidConversion);
      }
      items := items[i := v];
    }
    assert items == all;
    return Ok(Array(t.name, t.element, items));
  }

  // ---------------------------------------------------------------------------------------------
  // One element there and back
  // ---------------------------------------------------------------------------------------------

  /** What a value looks like after the trip: strings are cut at 40 bytes and at their first NUL. */
  function Received(v: AnyValue): AnyValue {
    match v
    case Scalar(code, Text(s)) => Scalar(code, Text(UntilNul(Cut(s))))
    case Array(name, element, items) =>
      Array(name, element, seq(|items|, i requires 0 <= i < |items| => Received(items[i])))
    case _ => v
  }

  predicate Sendable(d: Dbr, v: AnyValue)
    requires v.Scalar?
  {
    d.ENUM? ==> v.data.Number? && v.data.n <= 0xFFFF
  }

  lemma {:induction false} SlotTrip(d: Dbr, v: AnyValue)
    requires v.Scalar? && Fits(v.code, v.data) && (d == ScalarDbr(v.code) || d == ArrayDbr(v.code))
    ensures SlotBuffer(d, v) != [] <==> Sendable(d, v)
    ensures Sendable(d, v) ==> |SlotBuffer(d, v)| == DbrSize(d) && DecodeSlot(d, v.code, SlotBuffer(d, v)) == Received(v)
  {
    if d.STRING? {
      if v.data.Text? {
        ByteFormats.SlotRoundTrip(v.data.bytes);
      } else {
        var s := PrintDecimal(v.data.n);
        DecimalLength(v.data.n);
        ByteFormats.SlotRoundTrip(s);
        PlainTextExactly(s);
        DecimalRoundTrip(v.data.n);
      }
    } else if d.ENUM? {
      if v.data.n <= 0xFFFF {
        BytesRoundTrip(UInt16, v.data.n);
      }
    } else {
      BytesRoundTrip(v.code, v.data.n);
      if v.code.Bool? {
        assert ToBytes(v.code, v.data.n) == ToBytes(Char8, v.data.n);
        BytesRoundTrip(Char8, v.data.n);
      }
    }
  }

  // ---------------------------------------------------------------------------------------------
  // Whole values
  // ---------------------------------------------------------------------------------------------

  ghost predicate SlotsOf(d: Dbr, items: seq<AnyValue>, n: nat)
    requires n <= |items|
  {
    forall i :: 0 <= i < n ==> |SlotBuffer(d, items[i])| == DbrSize(d)
  }

  lemma {:induction false} ConcatLength(d: Dbr, items: seq<AnyValue>, n: nat)
    requires n <= |items| && SlotsOf(d, items, n)
    ensures |Concat(d, items, n)| == n * DbrSize(d)
  {
    if n > 0 {
      ConcatLength(d, items, n - 1);
      Times(n - 1, DbrSize(d));
    }
  }

  lemma {:induction false} ConcatSlotAt(d: Dbr, items: seq<AnyValue>, n: nat, i: nat)
    requires i < n <= |items| && SlotsOf(d, items, n)
    ensures (i + 1) * DbrSize(d) <= |Concat(d, items, n)|
    ensures SlotAt(d, Concat(d, items, n), i) == SlotBuffer(d, items[i])
  {
    var front, last := Concat(d, items, n - 1), SlotBuffer(d, items[n - 1]);
    assert Concat(d, items, n) == front + last && SlotsOf(d, items, n - 1);
    if i < n - 1 {
      ConcatSlotAt(d, items, n - 1, i);
      SlotInFront(d, front, last, i);
    } else {
      ConcatLength(d, items, n - 1);
      SlotAtEnd(d, front, last, n - 1);
    }
  }

  lemma {:induction false} Times(i: nat, w: nat)
    ensures (i + 1) * w == i * w + w
  {
  }

  lemma {:induction false} SlotInFront(d: Dbr, front: seq<byte>, last: seq<byte>, i: nat)
    requires (i + 1) * DbrSize(d) <= |front|
    ensures SlotAt(d, front + last, i) == SlotAt(d, front, i)
  {
    Times(i, DbrSize(d));
    var lo, hi := i * DbrSize(d), (i + 1) * DbrSize(d);
    assert (front + last)[lo..hi] == front[lo..hi];
  }

  lemma {:induction false} SlotInPrefix(d: Dbr, buffer: seq<byte>, n: nat, i: nat)
    requires (i + 1) * DbrSize(d) <= n <= |buffer|
    ensures SlotAt(d, buffer, i) == SlotAt(d, buffer[..n], i)
  {
    assert buffer == buffer[..n] + buffer[n..];
    SlotInFront(d, buffer[..n], buffer[n..], i);
  }

  lemma {:induction false} SlotAtEnd(d: Dbr, front: seq<byte>, last: seq<byte>, i: nat)
    requires |front| == i * DbrSize(d) && |last| == DbrSize(d)
    ensures (i + 1) * DbrSize(d) == |front + last|
    ensures SlotAt(d, front + last, i) == last
  {
    Times(i, DbrSize(d));
    assert (front + last)[|front|..|front + last|] == last;
  }

  /** Arrays of one element are sent by the branch for scalars when their slots are text or enums. */
  predicate UsesArrayBranch(t: AnyType)
    requires IsChannelType(t)
  {
    t.ArrayType? ==> t.size > 1 || (t.size == 1 && IsRaw(t))
  }

  ghost predicate AllSendable(v: AnyValue)
    requires WellFormed(v) && IsChannelType(TypeOf(v))
  {
    var d := ChannelType(TypeOf(v)).value;
    if v.Scalar? then Sendable(d, v)
    else forall i :: 0 <= i < |v.items| ==> v.items[i].Scalar? && Sendable(d, v.items[i])
  }

  lemma {:induction false} ItemsAreScalars(v: AnyValue)
    requires WellFormed(v) && v.Array? && v.element.ScalarType?
    ensures forall i :: 0 <= i < |v.items| ==>
      v.items[i].Scalar? && v.items[i].code == v.element.code && Fits(v.items[i].code, v.items[i].data)
  {
    forall i | 0 <= i < |v.items|
      ensures v.items[i].Scalar? && v.items[i].code == v.element.code && Fits(v.items[i].code, v.items[i].data)
    {
      assert TypeOf(v.items[i]) == v.element && WellFormed(v.items[i]);
    }
  }

  /**
   The written buffer decodes to the received form. A value is refused exactly if it is an enum-backed
   scalar over 16 bits; the element types of enum-backed arrays have no such values.
   */
  lemma {:induction false} CodecRoundTrip(v: AnyValue)
    requires WellFormed(v) && IsChannelType(TypeOf(v)) && UsesArrayBranch(TypeOf(v))
    ensures UpdateBuffer(v) != [] <==> AllSendable(v)
    ensures AllSendable(v) ==>
      var t := TypeOf(v);
      && |UpdateBuffer(v)| == Multiplicity(t) * DbrSize(ChannelType(t).value)
      && ParseAnyValue(t, Multiplicity(t), UpdateBuffer(v)) == Ok(Received(v))
  {
    var t := TypeOf(v);
    var d := ChannelType(t).value;
    if v.Scalar? {
      SlotTrip(d, v);
      if AllSendable(v) {
        assert UpdateBuffer(v)[..DbrSize(d)] == UpdateBuffer(v);
      }
    } else {
      ItemsAreScalars(v);
      forall i | 0 <= i < |v.items|
        ensures SlotBuffer(d, v.items[i]) != [] <==> Sendable(d, v.items[i])
        ensures Sendable(d, v.items[i]) ==> |SlotBuffer(d, v.items[i])| == DbrSize(d)
        ensures Sendable(d, v.items[i]) ==> DecodeSlot(d, v.element.code, SlotBuffer(d, v.items[i])) == Received(v.items[i])
      {
        SlotTrip(d, v.items[i]);
      }
      ArrayTrip(v, d);
    }
  }

  lemma {:induction false} ArrayTrip(v: AnyValue, d: Dbr)
    requires WellFormed(v) && v.Array? && IsChannelType(TypeOf(v)) && UsesArrayBranch(TypeOf(v))
    requires d == ChannelType(TypeOf(v)).value && SlotsOf(d, v.items, |v.items|)
    requires forall i :: 0 <= i < |v.items| ==>
      v.items[i].Scalar? && DecodeSlot(d, v.element.code, SlotBuffer(d, v.items[i])) == Received(v.items[i])
    ensures UpdateBuffer(v) != [] && |UpdateBuffer(v)| == |v.items| * DbrSize(d)
    ensures ParseAnyValue(TypeOf(v), |v.items|, UpdateBuffer(v)) == Ok(Received(v))
  {
    var n := |v.items|;
    var buffer := Concat(d, v.items, n);
    ArrayBuffer(v, d);
    var items := Elements(d, v.element.code, n, n, buffer);
    forall i | 0 <= i < n ensures items[i] == Received(v.items[i]) && items[i].Scalar? {
      assert items[i] == Element(d, v.element.code, n, buffer, i);
      ConcatSlotAt(d, v.items, n, i);
    }
    assert items == Received(v).items;
  }

  lemma {:induction false} ArrayBuffer(v: AnyValue, d: Dbr)
    requires v.Array? && IsChannelType(TypeOf(v)) && UsesArrayBranch(TypeOf(v))
    requires d == ChannelType(TypeOf(v)).value && SlotsOf(d, v.items, |v.items|)
    ensures UpdateBuffer(v) == Concat(d, v.items, |v.items|) && |UpdateBuffer(v)| == |v.items| * DbrSize(d)
    ensures UpdateBuffer(v) != []
  {
    assert Complete(d, v.items, |v.items|);
    ConcatLength(d, v.items, |v.items|);
    SlotInBuffer(d, |v.items|, 0);
  }

  /** A buffer that is not refused has the bytes of as many elements as are announced, for every channel type. */
  lemma {:induction false} BufferHasDeclaredLength(v: AnyValue)
    requires WellFormed(v) && IsChannelType(TypeOf(v)) && UpdateBuffer(v) != []
    ensures |UpdateBuffer(v)| == Multiplicity(TypeOf(v)) * DbrSize(ChannelType(TypeOf(v)).value)
  {
    if UsesArrayBranch(TypeOf(v)) {
      CodecRoundTrip(v);
    }
  }

  /** An array without elements is sent as two characters if its slots are text, and refused otherwise. */
  lemma {:induction false} NoElements(v: AnyValue)
    requires v.Array? && v.items == [] && IsChannelType(TypeOf(v))
    ensures ChannelType(TypeOf(v)).value.STRING? ==>
      |UpdateBuffer(v)| == SLOT && UntilNul(UpdateBuffer(v)) == [OPEN_BRACKET, CLOSE_BRACKET]
    ensures !ChannelType(TypeOf(v)).value.STRING? ==> UpdateBuffer(v) == []
  {
    if ChannelType(TypeOf(v)).value.STRING? {
      assert JsonText(v) == [OPEN_BRACKET, CLOSE_BRACKET];
      ByteFormats.SlotRoundTrip(JsonText(v));
      PlainTextExactly(JsonText(v));
    }
  }

  ghost predicate PlainTexts(v: AnyValue) {
    match v
    case Scalar(_, Text(s)) => PlainText(s)
    case Array(_, _, items) => forall i :: 0 <= i < |items| ==> PlainTexts(items[i])
    case _ => true
  }

  lemma {:induction false} ReceivedUnchangedExactly(v: AnyValue)
    ensures Received(v) == v <==> PlainTexts(v)
  {
    match v
    case Scalar(_, Text(s)) => PlainTextExactly(s);
    case Array(_, _, items) =>
      forall i | 0 <= i < |items| ensures Received(items[i]) == items[i] <==> PlainTexts(items[i]) {
        ReceivedUnchangedExactly(items[i]);
      }
      if PlainTexts(v) {
        assert Received(v).items == items;
      } else {
        var i :| 0 <= i < |items| && !PlainTexts(items[i]);
        assert Received(v).items[i] == Received(items[i]);
      }
    case _ =>
  }

  /** A sent value comes back as it was exactly if its strings fit their slots. */
  lemma {:induction false} CodecIsLosslessExactly(v: AnyValue)
    requires WellFormed(v) && IsChannelType(TypeOf(v)) && UsesArrayBranch(TypeOf(v)) && AllSendable(v)
    ensures var t := TypeOf(v);
      && Multiplicity(t) * DbrSize(ChannelType(t).value) <= |UpdateBuffer(v)|
      && (ParseAnyValue(t, Multiplicity(t), UpdateBuffer(v)) == Ok(v) <==> PlainTexts(v))
  {
    CodecRoundTrip(v);
    ReceivedUnchangedExactly(v);
  }

  // ---------------------------------------------------------------------------------------------
  // Arrays of one element
  // ---------------------------------------------------------------------------------------------

  /** An array of one number in a text slot is sent as a JSON array, which does not parse as the number. */
  lemma {:induction false} OneNumberAsText(v: AnyValue)
    requires WellFormed(v) && v.Array? && |v.items| == 1 && IsChannelType(TypeOf(v))
    requires ArrayDbr(v.element.code).STRING? && !v.element.code.String?
    ensures |UpdateBuffer(v)| == SLOT && ParseAnyValue(TypeOf(v), 1, UpdateBuffer(v)) == Err(InvalidConversion)
  {
    var buffer := UpdateBuffer(v);
    var text := UntilNul(buffer);
    assert Cut(JsonText(v))[0] == 91;
    assert buffer[0] == 91;
    assert text != [] && text[0] == 91;
    NotDecimal(text);
    OneSlot(v.element.code, buffer);
  }

  /** An array of one enum is never sent. */
  lemma {:induction false} OneEnumIsRefused(v: AnyValue)
    requires v.Array? && |v.items| == 1 && IsChannelType(TypeOf(v)) && ArrayDbr(v.element.code).ENUM?
    ensures UpdateBuffer(v) == []
  {
  }

  /** The text of an array of one string, as far as it fits into the slot. */
  function Quoted(s: seq<byte>): seq<byte> {
    Cut([OPEN_BRACKET, QUOTE] + Escaped(s) + [QUOTE, CLOSE_BRACKET])
  }

  /** An array of one string comes back with bracket and quote before its escaped bytes, whatever the string is. */
  lemma {:induction false} OneStringIsQuoted(v: AnyValue, s: seq<byte>)
    requires v.Array? && v.element == ScalarType(String) && v.items == [Scalar(String, Text(s))]
    ensures |UpdateBuffer(v)| == SLOT
    ensures ParseAnyValue(TypeOf(v), 1, UpdateBuffer(v))
         == Ok(Array(v.name, v.element, [Scalar(String, Text(Quoted(s)))]))
  {
    QuotedText(v, s);
    var buffer := UpdateBuffer(v);
    assert buffer == Slot(JsonText(v));
    OneSlot(v.element.code, buffer);
    ByteFormats.SlotRoundTrip(JsonText(v));
    PlainTextExactly(Quoted(s));
    assert Cut(Quoted(s)) == Quoted(s);
  }

  /** A buffer of one text slot. */
  lemma {:induction false} OneSlot(code: ScalarCode, buffer: seq<byte>)
    requires |buffer| == SLOT
    ensures Elements(STRING, code, 1, 1, buffer) == [DecodeSlot(STRING, code, buffer)]
  {
    assert SlotAt(STRING, buffer, 0) == buffer;
    assert Elements(STRING, code, 1, 1, buffer)[0] == Element(STRING, code, 1, buffer, 0);
  }

  lemma {:induction false} QuotedText(v: AnyValue, s: seq<byte>)
    requires v.Array? && v.items == [Scalar(String, Text(s))]
    ensures Cut(JsonText(v)) == Quoted(s) && PlainText(Quoted(s))
  {
    assert JsonText(v.items[0]) == [QUOTE] + Escaped(s) + [QUOTE];
    assert JsonItems(v.items) == [QUOTE] + Escaped(s) + [QUOTE];
    var text := [OPEN_BRACKET, QUOTE] + Escaped(s) + [QUOTE, CLOSE_BRACKET];
    assert JsonText(v) == text;
    assert forall i :: 0 <= i < |text| ==> text[i] != 0;
  }

  // One string equals its own quoted form: each of its blocks is the one before it, escaped.

  function Backslashes(n: nat): (s: seq<byte>)
    ensures |s| == n && forall i :: 0 <= i < n ==> s[i] == BACKSLASH
  {
    seq(n, _ => BACKSLASH)
  }

  function Block(n: nat): seq<byte> {
    [OPEN_BRACKET] + Backslashes(n) + [QUOTE]
  }

  /** The first 40 bytes of the blocks with 0, 1, 3, 7, 15, 31 backslashes. */
  const NESTED: seq<byte> := Block(0) + Block(1) + Block(3) + Block(7) + Block(15) + ([OPEN_BRACKET] + Backslashes(3))

  lemma {:induction false} EscapedAppend(a: seq<byte>, b: seq<byte>)
    ensures Escaped(a + b) == Escaped(a) + Escaped(b)
  {
    if a == [] {
      assert a + b == b;
    } else {
      assert (a + b)[1..] == a[1..] + b;
      EscapedAppend(a[1..], b);
      assert Escape(a[0]) + (Escaped(a[1..]) + Escaped(b)) == Escape(a[0]) + Escaped(a[1..]) + Escaped(b);
    }
  }

  lemma {:induction false} EscapedOne(b: byte)
    ensures Escaped([b]) == Escape(b)
  {
    assert [b][1..] == [];
  }

  lemma {:induction false} EscapedBackslashes(n: nat)
    ensures Escaped(Backslashes(n)) == Backslashes(2 * n)
  {
    if n > 0 {
      EscapedBackslashes(n - 1);
      assert Backslashes(n)[1..] == Backslashes(n - 1);
      assert [BACKSLASH, BACKSLASH] + Backslashes(2 * n - 2) == Backslashes(2 * n);
    }
  }

  lemma {:induction false} EscapedBlock(n: nat)
    ensures Escaped(Block(n)) == Block(2 * n + 1)
  {
    EscapedAppend([OPEN_BRACKET] + Backslashes(n), [QUOTE]);
    EscapedAppend([OPEN_BRACKET], Backslashes(n));
    EscapedOne(OPEN_BRACKET);
    EscapedOne(QUOTE);
    EscapedBackslashes(n);
    assert Backslashes(2 * n) + [BACKSLASH, QUOTE] == Backslashes(2 * n + 1) + [QUOTE];
    assert [OPEN_BRACKET] + Backslashes(2 * n) + [BACKSLASH, QUOTE] == [OPEN_BRACKET] + (Backslashes(2 * n) + [BACKSLASH, QUOTE]);
    assert [OPEN_BRACKET] + (Backslashes(2 * n + 1) + [QUOTE]) == Block(2 * n + 1);
  }

  lemma {:induction false} NestedIsItsOwnQuote()
    ensures |NESTED| == SLOT && Quoted(NESTED) == NESTED
  {
    var front, more := Block(0) + Block(1) + Block(3) + Block(7), Block(15) + ([OPEN_BRACKET] + Backslashes(3));
    assert NESTED == front + more;
    EscapedAppend(front, more);
    EscapedFront();
    EscapedMore();
    QuoteShows(Escaped(front), Escaped(more), [OPEN_BRACKET] + Backslashes(3));
    NestedParts();
  }

  lemma {:induction false} NestedParts()
    ensures NESTED == [OPEN_BRACKET, QUOTE] + (Block(1) + Block(3) + Block(7) + Block(15)) + ([OPEN_BRACKET] + Backslashes(3))
  {
    assert [OPEN_BRACKET, QUOTE] == Block(0);
    assert Block(0) + (Block(1) + Block(3) + Block(7) + Block(15)) == Block(0) + Block(1) + Block(3) + Block(7) + Block(15);
  }

  /** Of 34 bytes and more inside the quotes the slot keeps those and four more. */
  lemma {:induction false} QuoteShows(front: seq<byte>, more: seq<byte>, last: seq<byte>)
    requires |front| == 34 && |more| >= 4 && more[..4] == last
    ensures Cut([OPEN_BRACKET, QUOTE] + (front + more) + [QUOTE, CLOSE_BRACKET]) == [OPEN_BRACKET, QUOTE] + front + last
  {
    assert more == last + more[4..];
  }

  lemma {:induction false} EscapedFront()
    ensures Escaped(Block(0) + Block(1) + Block(3) + Block(7)) == Block(1) + Block(3) + Block(7) + Block(15)
  {
    EscapedAppend(Block(0) + Block(1) + Block(3), Block(7));
    EscapedAppend(Block(0) + Block(1), Block(3));
    EscapedAppend(Block(0), Block(1));
    EscapedBlock(0);
    EscapedBlock(1);
    EscapedBlock(3);
    EscapedBlock(7);
  }

  lemma {:induction false} EscapedMore()
    ensures var more := Block(15) + ([OPEN_BRACKET] + Backslashes(3));
      |Escaped(more)| >= 4 && Escaped(more)[..4] == [OPEN_BRACKET] + Backslashes(3)
  {
    EscapedAppend(Block(15), [OPEN_BRACKET] + Backslashes(3));
    EscapedBlock(15);
    BlockStart(31, Escaped([OPEN_BRACKET] + Backslashes(3)));
  }

  lemma {:induction false} BlockStart(n: nat, rest: seq<byte>)
    requires n >= 3
    ensures (Block(n) + rest)[..4] == [OPEN_BRACKET] + Backslashes(3)
  {
  }

  /** Strings of 40 bytes that equal their quoted form cannot differ: the first k bytes determine two more. */
  lemma {:induction false} OwnQuotesAgree(s: seq<byte>, t: seq<byte>, k: nat)
    requires |s| == |t| == SLOT && Quoted(s) == s && Quoted(t) == t
    requires k <= SLOT && s[..k] == t[..k]
    ensures s == t
    decreases SLOT - k
  {
    if k == SLOT {
      assert s == s[..k] == t[..k] == t;
    } else {
      var next := if k + 2 <= SLOT then k + 2 else SLOT;
      FirstBytesQuoted(s, k);
      FirstBytesQuoted(t, k);
      assert s[..next] == t[..next];
      OwnQuotesAgree(s, t, next);
    }
  }

  lemma {:induction false} FirstBytesQuoted(s: seq<byte>, k: nat)
    requires |s| == SLOT && k <= SLOT && Quoted(s) == s
    ensures var shown := [OPEN_BRACKET, QUOTE] + Escaped(s[..k]);
      |shown| >= k + 2 && forall i :: 0 <= i < k + 2 && i < SLOT ==> s[i] == shown[i]
  {
    assert s == s[..k] + s[k..];
    EscapedAppend(s[..k], s[k..]);
    CutStartsWith([OPEN_BRACKET, QUOTE], Escaped(s[..k]), Escaped(s[k..]), [QUOTE, CLOSE_BRACKET]);
  }

  lemma {:induction false} CutStartsWith(a: seq<byte>, b: seq<byte>, c: seq<byte>, d: seq<byte>)
    ensures var cut := Cut(a + (b + c) + d);
      forall i :: 0 <= i < |a + b| && i < |cut| ==> cut[i] == (a + b)[i]
  {
  }

  lemma {:induction false} OwnQuoteExactly(s: seq<byte>)
    ensures Quoted(s) == s <==> s == NESTED
  {
    NestedIsItsOwnQuote();
    if Quoted(s) == s {
      OwnQuotesAgree(s, NESTED, 0);
    }
  }

  /** Sent, received with the declared count, and unchanged. */
  ghost predicate Survives(v: AnyValue)
    requires IsParsed(TypeOf(v))
  {
    var t, buffer := TypeOf(v), UpdateBuffer(v);
    && buffer != [] && VerifyCount(t, Multiplicity(t))
    && Multiplicity(t) * DbrSize(ChannelType(t).value) <= |buffer|
    && ParseAnyValue(t, Multiplicity(t), buffer) == Ok(v)
  }

  /**
   The law of the codec. A value comes back as it was if and only if it is sent by its own branch, fits 16
   bits where it is enum-backed and 40 bytes without NUL where it is text. Of the other values, arrays of
   one element with text or enum slots, none survives but the array of the one string that is its own quote.
   */
  lemma {:induction false} SurvivesExactly(v: AnyValue)
    requires WellFormed(v) && IsParsed(TypeOf(v))
    ensures Survives(v) <==>
      if UsesArrayBranch(TypeOf(v)) then AllSendable(v) && PlainTexts(v)
      else v.items == [Scalar(String, Text(NESTED))]
  {
    if UsesArrayBranch(TypeOf(v)) {
      CodecRoundTrip(v);
      ReceivedUnchangedExactly(v);
    } else if v.items == [] {
      NoElements(v);
    } else {
      OneElementSurvives(v);
    }
  }

  lemma {:induction false} OneElementSurvives(v: AnyValue)
    requires WellFormed(v) && IsParsed(TypeOf(v)) && v.Array? && |v.items| == 1 && !IsRaw(TypeOf(v))
    ensures Survives(v) <==> v.items == [Scalar(String, Text(NESTED))]
  {
    ItemsAreScalars(v);
    assert v.items[0].Scalar? && v.items[0].code == v.element.code;
    if v.element.code.String? {
      var s := v.items[0].data.bytes;
      assert v.items == [Scalar(String, Text(s))];
      OneStringIsQuoted(v, s);
      OwnQuoteExactly(s);
    } else if ArrayDbr(v.element.code).STRING? {
      OneNumberAsText(v);
    } else {
      OneEnumIsRefused(v);
    }
  }

  /** Numbers survive exactly outside the one-element arrays above and within 16 bits for enum-backed scalars. */
  lemma {:induction false} NumbersSurviveExactly(v: AnyValue)
    requires WellFormed(v) && IsParsed(TypeOf(v))
    requires if v.Scalar? then !v.code.String? else !v.element.code.String?
    ensures Survives(v) <==> UsesArrayBranch(TypeOf(v)) && AllSendable(v)
  {
    SurvivesExactly(v);
    if v.Array? {
      ItemsAreScalars(v);
      forall i | 0 <= i < |v.items| ensures PlainTexts(v.items[i]) {
        assert v.items[i].data.Number?;
      }
      if !UsesArrayBranch(TypeOf(v)) && v.items != [] {
        assert v.items[0].code == v.element.code;
      }
    }
  }

  // ---------------------------------------------------------------------------------------------
  // What goes out, element type by element type
  // ---------------------------------------------------------------------------------------------

  /** How EPICS takes the bytes of a DBR type. */
  function DbrRepresentation(d: Dbr): P.Representation {
    match d
    case STRING => P.Characters
    case ENUM => P.Unsigned(16)
    case CHAR => P.Unsigned(8)
    case SHORT => P.Signed(16)
    case LONG => P.Signed(32)
    case FLOAT => P.Floating(32)
    case DOUBLE => P.Floating(64)
  }

  /** EPICS has one type of 8 bits; it also carries booleans and signed bytes. */
  function EightBitsAlike(r: P.Representation): P.Representation {
    if r == P.Logical || r == P.Signed(8) then P.Unsigned(8) else r
  }

  /** The characters of a string, or the decimal digits of a number. */
  function Characters(v: AnyValue): seq<byte>
    requires v.Scalar?
  {
    match v.data
    case Text(s) => s
    case Number(n) => PrintDecimal(n)
  }

  predicate IsUnsigned(code: ScalarCode) {
    code == UInt8 || code == UInt16 || code == UInt32 || code == UInt64
  }

  /**
   Scalars. Strings and signed 64-bit numbers are sent as a slot of 40 characters; unsigned numbers as an
   unsigned word of two bytes, or not at all if they do not fit; all others as their own bytes, announced as the
   type that EPICS reads in the same way.
   */
  lemma {:induction false} ScalarsAreSentAs(v: AnyValue)
    requires v.Scalar? && WellFormed(v)
    ensures IsChannelType(TypeOf(v))
    ensures var announced, b := DbrRepresentation(ChannelType(TypeOf(v)).value), UpdateBuffer(v);
      if v.code == String || v.code == Int64 then
        announced == P.Characters && b == Slot(Characters(v))
      else if IsUnsigned(v.code) then
        announced == P.Unsigned(16) && b == if v.data.n <= 0xFFFF then LittleEndian(v.data.n, 2) else []
      else
        announced == EightBitsAlike(P.CodeRepresentation(v.code)) && b == ToBytes(v.code, v.data.n)
  {
  }

  /** The buffer of the array has w bytes for every element, and these for the i-th. */
  ghost predicate PartIs(v: AnyValue, w: nat, i: nat, part: seq<byte>)
    requires v.Array? && IsChannelType(TypeOf(v))
  {
    var b := UpdateBuffer(v);
    |b| == |v.items| * w && i * w + w <= |b| && b[i * w..i * w + w] == part
  }

  /** One element in the slot of its array. */
  lemma {:induction false} ElementsAreSentAs(e: AnyValue)
    requires e.Scalar? && WellFormed(e)
    ensures var d := ArrayDbr(e.code);
      if e.code == String || e.code == Int64 || e.code == UInt32 || e.code == UInt64 then
        DbrRepresentation(d) == P.Characters && DbrSize(d) == 40 && SlotBuffer(d, e) == Slot(Characters(e))
      else if e.code == UInt8 || e.code == UInt16 then
        DbrRepresentation(d) == P.Unsigned(16) && DbrSize(d) == 2 && SlotBuffer(d, e) == LittleEndian(e.data.n, 2)
      else
        && DbrRepresentation(d) == EightBitsAlike(P.CodeRepresentation(e.code))
        && DbrSize(d) == Width(e.code) && SlotBuffer(d, e) == ToBytes(e.code, e.data.n)
  {
  }

  /**
   Arrays, of two and more elements where the slots are text or words. Strings, signed 64-bit and unsigned 32-
   and 64-bit numbers are sent as slots of 40 characters, unsigned 8- and 16-bit numbers as words of two bytes,
   all others as their own bytes, announced as above.
   */
  lemma {:induction false} ArraysAreSentAs(v: AnyValue, i: nat)
    requires v.Array? && v.element.ScalarType? && WellFormed(v) && i < |v.items|
    ensures IsChannelType(TypeOf(v))
    ensures v.items[i].Scalar? && v.items[i].code == v.element.code && Fits(v.element.code, v.items[i].data)
    ensures var announced, code, e, n := DbrRepresentation(ChannelType(TypeOf(v)).value), v.element.code, v.items[i], |v.items|;
      if code == String || code == Int64 || code == UInt32 || code == UInt64 then
        announced == P.Characters && (n >= 2 ==> PartIs(v, 40, i, Slot(Characters(e))))
      else if code == UInt8 || code == UInt16 then
        announced == P.Unsigned(16) && (n >= 2 ==> PartIs(v, 2, i, LittleEndian(e.data.n, 2)))
      else
        announced == EightBitsAlike(P.CodeRepresentation(code)) && PartIs(v, Width(code), i, ToBytes(code, e.data.n))
  {
    ItemsAreScalars(v);
    ElementsAreSentAs(v.items[i]);
    if UsesArrayBranch(TypeOf(v)) {
      ArrayPart(v, i);
    }
  }

  lemma {:induction false} ArrayPart(v: AnyValue, i: nat)
    requires v.Array? && v.element.ScalarType? && WellFormed(v) && i < |v.items| && UsesArrayBranch(TypeOf(v))
    ensures var d := ChannelType(TypeOf(v)).value; PartIs(v, DbrSize(d), i, SlotBuffer(d, v.items[i]))
  {
    ItemsFillSlots(v);
    PartOfConcat(v, ChannelType(TypeOf(v)).value, i);
  }

  lemma {:induction false} ItemsFillSlots(v: AnyValue)
    requires v.Array? && v.element.ScalarType? && WellFormed(v)
    ensures SlotsOf(ArrayDbr(v.element.code), v.items, |v.items|)
  {
    ItemsAreScalars(v);
    forall k | 0 <= k < |v.items| ensures |SlotBuffer(ArrayDbr(v.element.code), v.items[k])| == DbrSize(ArrayDbr(v.element.code)) {
      SlotTrip(ArrayDbr(v.element.code), v.items[k]);
    }
  }

  lemma {:induction false} PartOfConcat(v: AnyValue, d: Dbr, i: nat)
    requires v.Array? && IsChannelType(TypeOf(v)) && UsesArrayBranch(TypeOf(v)) && i < |v.items|
    requires d == ChannelType(TypeOf(v)).value && SlotsOf(d, v.items, |v.items|)
    ensures PartIs(v, DbrSize(d), i, SlotBuffer(d, v.items[i]))
  {
    ArrayBuffer(v, d);
    ConcatSlotAt(d, v.items, |v.items|, i);
    Times(i, DbrSize(d));
  }

  // ---------------------------------------------------------------------------------------------
  // Waveforms shorter than declared
  // ---------------------------------------------------------------------------------------------

  /** The slot holds a value of the type: any bytes do, but for numbers in text and for 8-bit enums. */
  predicate Converts(d: Dbr, code: ScalarCode, slot: seq<byte>) {
    match d
    case STRING =>
      var n := ParseDecimal(UntilNul(slot));
      code.String? || (n.Some? && MinNumber(code) <= n.value <= MaxNumber(code))
    case ENUM => FromBytes(UInt16, slot) <= MaxNumber(code)
    case _ => true
  }

  lemma {:induction false} SlotDecodesExactly(d: Dbr, code: ScalarCode, slot: seq<byte>)
    requires (d == ScalarDbr(code) || d == ArrayDbr(code)) && |slot| == DbrSize(d)
    ensures var v := DecodeSlot(d, code, slot);
      if Converts(d, code, slot) then TypeOf(v) == ScalarType(code) && WellFormed(v) else v == Empty
  {
    if d.ENUM? {
      FromBytesFits(UInt16, slot);
    } else if !d.STRING? && !code.Bool? {
      FromBytesFits(code, slot);
    }
  }

  function ElementCode(t: AnyType): ScalarCode
    requires IsChannelType(t)
  {
    if t.ArrayType? then t.element.code else t.code
  }

  predicate ElementConverts(t: AnyType, count: nat, buffer: seq<byte>, i: nat)
    requires IsChannelType(t) && i < count && count * DbrSize(ChannelType(t).value) <= |buffer|
  {
    SlotInBuffer(ChannelType(t).value, count, i);
    Converts(ChannelType(t).value, ElementCode(t), SlotAt(ChannelType(t).value, buffer, i))
  }

  ghost predicate AllConvert(t: AnyType, count: nat, buffer: seq<byte>)
    requires IsChannelType(t) && count * DbrSize(ChannelType(t).value) <= |buffer|
  {
    forall i :: 0 <= i < count ==> ElementConverts(t, count, buffer, i)
  }

  lemma {:induction false} ElementDecodesExactly(t: AnyType, count: nat, buffer: seq<byte>, i: nat)
    requires IsChannelType(t) && count * DbrSize(ChannelType(t).value) <= |buffer|
    ensures var e := Element(ChannelType(t).value, ElementCode(t), count, buffer, i);
      if i >= count || ElementConverts(t, count, buffer, i) then TypeOf(e) == ScalarType(ElementCode(t)) && WellFormed(e)
      else e == Empty
  {
    if i < count {
      SlotInBuffer(ChannelType(t).value, count, i);
      SlotDecodesExactly(ChannelType(t).value, ElementCode(t), SlotAt(ChannelType(t).value, buffer, i));
    }
  }

  lemma {:induction false} SameElement(d: Dbr, code: ScalarCode, count: nat, buffer: seq<byte>, other: seq<byte>, i: nat)
    requires var n := count * DbrSize(d); n <= |buffer| && n <= |other| && buffer[..n] == other[..n]
    ensures Element(d, code, count, buffer, i) == Element(d, code, count, other, i)
  {
    if i < count {
      SlotInBuffer(d, count, i);
      SlotInPrefix(d, buffer, count * DbrSize(d), i);
      SlotInPrefix(d, other, count * DbrSize(d), i);
    }
  }

  /** The two buffers hold the same received elements, and enough for what is read. */
  ghost predicate SameReceived(t: AnyType, count: nat, buffer: seq<byte>, other: seq<byte>)
    requires IsChannelType(t) && VerifyCount(t, count)
  {
    var n := count * DbrSize(ChannelType(t).value);
    BytesRead(t, count) <= |buffer| && BytesRead(t, count) <= |other| && buffer[..n] == other[..n]
  }

  /**
   Any accepted count, for all array types. The decoder throws exactly if a received element does not convert,
   which cannot happen with raw slots. Otherwise the value has the requested type, with the received elements
   first and then defaults, and depends on the bytes of the received elements only, exactly if the type is not
   a boolean array of size zero.
   */
  lemma {:induction false} ShortWaveform(t: AnyType, count: nat, buffer: seq<byte>, other: seq<byte>)
    requires IsParsed(t) && t.ArrayType? && VerifyCount(t, count)
    requires SameReceived(t, count, buffer, other)
    ensures var r := ParseAnyValue(t, count, buffer);
      && (r.Ok? <==> AllConvert(t, count, buffer)) && (IsRaw(t) ==> r.Ok?)
      && (r.Err? ==> r.error == InvalidConversion)
      && (r.Ok? ==> WellFormed(r.value) && (TypeOf(r.value) == t <==> !IsEmptyBooleanArray(t)))
      && (r.Ok? && !IsEmptyBooleanArray(t) ==> ReceivedThenDefaults(t, count, buffer, r.value))
    ensures !IsEmptyBooleanArray(t) ==> ParseAnyValue(t, count, other) == ParseAnyValue(t, count, buffer)
  {
    if IsEmptyBooleanArray(t) {
      EmptyBooleanArray(t.name, buffer);
    } else {
      var d, code := ChannelType(t).value, t.element.code;
      SameElements(d, code, t.size, count, buffer, other);
      ElementsDecodeExactly(t, count, buffer);
      var items := Elements(d, code, t.size, count, buffer);
      forall i | 0 <= i < count
        ensures (i + 1) * DbrSize(d) <= |buffer| && items[i] == DecodeSlot(d, code, SlotAt(d, buffer, i))
      {
        SlotInBuffer(d, count, i);
        assert items[i] == Element(d, code, count, buffer, i);
      }
    }
  }

  ghost predicate ReceivedThenDefaults(t: AnyType, count: nat, buffer: seq<byte>, v: AnyValue)
    requires IsChannelType(t) && t.ArrayType?
  {
    var d := ChannelType(t).value;
    && v.Array? && |v.items| == t.size && count <= t.size
    && (forall i :: 0 <= i < count ==>
      (i + 1) * DbrSize(d) <= |buffer| && v.items[i] == DecodeSlot(d, t.element.code, SlotAt(d, buffer, i)))
    && forall i :: count <= i < t.size ==>
      v.items[i] == Scalar(t.element.code, if t.element.code.String? then Text([]) else Number(0))
  }

  lemma {:induction false} SameElements(d: Dbr, code: ScalarCode, size: nat, count: nat, buffer: seq<byte>, other: seq<byte>)
    requires var n := count * DbrSize(d); n <= |buffer| && n <= |other| && buffer[..n] == other[..n]
    ensures Elements(d, code, size, count, buffer) == Elements(d, code, size, count, other)
  {
    forall i | 0 <= i < size
      ensures Elements(d, code, size, count, buffer)[i] == Elements(d, code, size, count, other)[i]
    {
      SameElement(d, code, count, buffer, other, i);
    }
  }

  lemma {:induction false} ElementsDecodeExactly(t: AnyType, count: nat, buffer: seq<byte>)
    requires IsChannelType(t) && t.ArrayType? && count <= t.size && count * DbrSize(ChannelType(t).value) <= |buffer|
    ensures var items := Elements(ChannelType(t).value, t.element.code, t.size, count, buffer);
      && (Empty !in items <==> AllConvert(t, count, buffer))
      && (Empty !in items ==> forall i :: 0 <= i < t.size ==> TypeOf(items[i]) == t.element && WellFormed(items[i]))
  {
    var items := Elements(ChannelType(t).value, t.element.code, t.size, count, buffer);
    forall i | 0 <= i < t.size
      ensures if i >= count || ElementConverts(t, count, buffer, i) then TypeOf(items[i]) == t.element && WellFormed(items[i])
              else items[i] == Empty
    {
      ElementDecodesExactly(t, count, buffer, i);
    }
    if !AllConvert(t, count, buffer) {
      var i :| 0 <= i < count && !ElementConverts(t, count, buffer, i);
      assert items[i] == Empty;
    }
  }

  /** A boolean array of size zero: one scalar, read from a byte that no received element has. */
  lemma {:induction false} EmptyBooleanArray(name: string, buffer: seq<byte>)
    requires buffer != []
    ensures var t := ArrayType(name, 0, ScalarType(Bool));
      && IsParsed(t) && VerifyCount(t, 0) && BytesRead(t, 0) == 1
      && ParseAnyValue(t, 0, buffer) == Ok(Scalar(Bool, Number(if buffer[0] != 0 then 1 else 0)))
  {
    assert buffer[..1] == [buffer[0]] && [buffer[0]][1..] == [];
    assert FromLittleEndian([buffer[0]]) == buffer[0];
  }

  ghost predicate ReadsReceivedBytesOnly(t: AnyType, count: nat)
    requires IsParsed(t) && VerifyCount(t, count)
  {
    forall buffer, other :: SameReceived(t, count, buffer, other) ==>
      ParseAnyValue(t, count, buffer) == ParseAnyValue(t, count, other)
  }

  /** The received bytes alone determine the value, for every channel type and count but that one. */
  lemma {:induction false} ReadsReceivedBytesOnlyExactly(t: AnyType, count: nat)
    requires IsParsed(t) && VerifyCount(t, count)
    ensures ReadsReceivedBytesOnly(t, count) <==> !IsEmptyBooleanArray(t)
  {
    if IsEmptyBooleanArray(t) {
      EmptyBooleanArray(t.name, [0]);
      EmptyBooleanArray(t.name, [1]);
      assert SameReceived(t, count, [0], [1]);
    } else {
      forall buffer, other | SameReceived(t, count, buffer, other)
        ensures ParseAnyValue(t, count, buffer) == ParseAnyValue(t, count, other)
      {
        if t.ArrayType? {
          ShortWaveform(t, count, buffer, other);
        }
      }
    }
  }

  /**
   What a raw monitor value is, for every count and every channel type: of the channel's type exactly if data
   with an acceptable count came in, every received element converts and the type is not a boolean array of
   size zero. Without acceptable data it is Empty.
   */
  lemma {:induction false} MonitorValueTyped(t: AnyType, count: int, buffer: Option<seq<byte>>)
    requires IsParsed(t) && CanRead(t, count, buffer)
    ensures var r := MonitorValue(t, count, buffer);
      var received := buffer.Some? && if t.ArrayType? then 0 <= count <= t.size else count == 1;
      && (r.Ok? ==> WellFormed(r.value))
      && (r.Ok? && TypeOf(r.value) == t <==>
        received && !IsEmptyBooleanArray(t) && AllConvert(t, count, buffer.value))
      && (r.Err? <==> received && !IsEmptyBooleanArray(t) && t.ArrayType? && !AllConvert(t, count, buffer.value))
      && (!received ==> r == Ok(Empty))
  {
    if buffer.Some? && VerifyCount(t, count) {
      if IsEmptyBooleanArray(t) {
        EmptyBooleanArray(t.name, buffer.value);
      } else if t.ArrayType? {
        ShortWaveform(t, count, buffer.value, buffer.value);
      } else {
        ElementDecodesExactly(t, 1, buffer.value, 0);
        assert SlotAt(ChannelType(t).value, buffer.value, 0) == buffer.value[..DbrSize(ChannelType(t).value)];
        assert AllConvert(t, 1, buffer.value) <==> ElementConverts(t, 1, buffer.value, 0);
      }
    }
  }
}
