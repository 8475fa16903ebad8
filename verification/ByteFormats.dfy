/** Byte formats below the Channel Access codec: fixed width integers, decimal text and NUL terminated slots. */
module ByteFormats {
  import opened Results
  import opened AnyValues

  // ---------------------------------------------------------------------------------------------
  // Fixed width, little endian, two's complement
  // ---------------------------------------------------------------------------------------------

  function Pow256(width: nat): nat {
    if width == 0 then 1 else 256 * Pow256(width - 1)
  }

  function LittleEndian(u: nat, width: nat): (bs: seq<byte>)
    ensures |bs| == width
  {
    if width == 0 then [] else [u % 256] + LittleEndian(u / 256, width - 1)
  }

  function FromLittleEndian(bs: seq<byte>): nat {
    if bs == [] then 0 else bs[0] + 256 * FromLittleEndian(bs[1..])
  }

  lemma {:induction false} LittleEndianRoundTrip(u: nat, width: nat)
    requires u < Pow256(width)
    ensures FromLittleEndian(LittleEndian(u, width)) == u
  {
    if width > 0 {
      LittleEndianRoundTrip(u / 256, width - 1);
      assert LittleEndian(u, width)[1..] == LittleEndian(u / 256, width - 1);
    }
  }

  lemma {:induction false} FromLittleEndianBound(bs: seq<byte>)
    ensures FromLittleEndian(bs) < Pow256(|bs|)
  {
    if bs != [] {
      FromLittleEndianBound(bs[1..]);
    }
  }

  function Width(code: ScalarCode): nat {
    match code
    case Bool | Char8 | Int8 | UInt8 => 1
    case Int16 | UInt16 => 2
    case Int32 | UInt32 | Float32 => 4
    case Int64 | UInt64 | Float64 => 8
    case String => 0
  }

  lemma {:induction false} Ranges(code: ScalarCode)
    requires !code.String?
    ensures Pow256(1) == 0x100 && Pow256(2) == 0x1_0000 && Pow256(4) == 0x1_0000_0000
    ensures Pow256(8) == 0x1_0000_0000_0000_0000
    ensures MaxNumber(code) - MinNumber(code) < Pow256(Width(code))
    ensures MinNumber(code) < 0 ==> MaxNumber(code) - MinNumber(code) + 1 == Pow256(Width(code))
    ensures !code.Bool? && MinNumber(code) == 0 ==> MaxNumber(code) + 1 == Pow256(Width(code))
  {
    assert Pow256(3) == 256 * Pow256(2);
    assert Pow256(5) == 256 * Pow256(4);
    assert Pow256(6) == 256 * Pow256(5);
    assert Pow256(7) == 256 * Pow256(6);
  }

  /** ToBytes of a number. */
  function ToBytes(code: ScalarCode, n: int): (bs: seq<byte>)
    requires Fits(code, Number(n))
    ensures |bs| == Width(code)
  {
    Ranges(code);
    LittleEndian(if n < 0 then n + Pow256(Width(code)) else n, Width(code))
  }

  /** FromBytes into a number of the given type. */
  function FromBytes(code: ScalarCode, bs: seq<byte>): int {
    var u := FromLittleEndian(bs);
    if u > MaxNumber(code) && MinNumber(code) < 0 then u - Pow256(Width(code)) else u
  }

  lemma {:induction false} BytesRoundTrip(code: ScalarCode, n: int)
    requires Fits(code, Number(n))
    ensures FromBytes(code, ToBytes(code, n)) == n
  {
    Ranges(code);
    LittleEndianRoundTrip(if n < 0 then n + Pow256(Width(code)) else n, Width(code));
  }

  lemma {:induction false} FromBytesFits(code: ScalarCode, bs: seq<byte>)
    requires !code.String? && !code.Bool? && |bs| == Width(code)
    ensures Fits(code, Number(FromBytes(code, bs)))
  {
    Ranges(code);
    FromLittleEndianBound(bs);
  }

  // ---------------------------------------------------------------------------------------------
  // Decimal text
  // ---------------------------------------------------------------------------------------------

  const MINUS: byte := 45
  const ZERO: byte := 48

  function Digits(n: nat): (s: seq<byte>)
    ensures s != [] && forall i :: 0 <= i < |s| ==> ZERO <= s[i] <= ZERO + 9
    ensures s[0] == ZERO ==> n == 0 && |s| == 1
  {
    if n < 10 then [ZERO + n] else Digits(n / 10) + [ZERO + n % 10]
  }

  function PrintDecimal(n: int): (s: seq<byte>)
    ensures s != [] && forall i :: 0 <= i < |s| ==> s[i] == MINUS || ZERO <= s[i] <= ZERO + 9
    ensures s[0] == MINUS <==> n < 0
  {
    if n < 0 then [MINUS] + Digits(-n) else Digits(n)
  }

  function ParseDigits(s: seq<byte>): (r: Option<int>)
    ensures r.Some? ==> r.value >= 0
  {
    if s == [] || !(ZERO <= s[|s| - 1] <= ZERO + 9) then None
    else
      var d := s[|s| - 1] - ZERO;
      if |s| == 1 then Some(d)
      else
        match ParseDigits(s[..|s| - 1])
        case None => None
        case Some(n) => Some(10 * n + d)
  }

  function ParseDecimal(s: seq<byte>): Option<int> {
    if s != [] && s[0] == MINUS then
      match ParseDigits(s[1..])
      case None => None
      case Some(n) => Some(-n)
    else
      match ParseDigits(s)
      case None => None
      case Some(n) => Some(n)
  }

  lemma {:induction false} DigitsParse(n: nat)
    ensures ParseDigits(Digits(n)) == Some(n)
  {
    if n >= 10 {
      DigitsParse(n / 10);
      var s := Digits(n);
      assert s[..|s| - 1] == Digits(n / 10);
    }
  }

  lemma {:induction false} DecimalRoundTrip(n: int)
    ensures ParseDecimal(PrintDecimal(n)) == Some(n)
  {
    if n < 0 {
      NegativeParses(-n);
    } else {
      DigitsParse(n);
      assert Digits(n)[0] != MINUS;
    }
  }

  lemma {:induction false} NegativeParses(n: int)
    requires n > 0
    ensures ParseDecimal([MINUS] + Digits(n)) == Some(-n)
  {
    DigitsParse(n);
    assert ([MINUS] + Digits(n))[1..] == Digits(n);
  }

  /** Text that starts with something else than a digit or a minus is not a number. */
  lemma {:induction false} NotDecimal(s: seq<byte>)
    requires s != [] && s[0] != MINUS && !(ZERO <= s[0] <= ZERO + 9)
    ensures ParseDecimal(s) == None
  {
    NotDigits(s);
  }

  lemma {:induction false} NotDigits(s: seq<byte>)
    requires s != [] && !(ZERO <= s[0] <= ZERO + 9)
    ensures ParseDigits(s) == None
    decreases |s|
  {
    if |s| > 1 {
      NotDigits(s[..|s| - 1]);
    }
  }

  function Pow10(k: nat): nat {
    if k == 0 then 1 else 10 * Pow10(k - 1)
  }

  lemma {:induction false} DigitsLength(n: nat, k: nat)
    requires k >= 1 && n < Pow10(k)
    ensures |Digits(n)| <= k
  {
    if n >= 10 {
      DigitsLength(n / 10, k - 1);
    }
  }

  /** Every 64-bit number has at most 20 characters. */
  lemma {:induction false} DecimalLength(n: int)
    requires -0x8000_0000_0000_0000 <= n <= 0xFFFF_FFFF_FFFF_FFFF
    ensures |PrintDecimal(n)| <= 20
  {
    assert Pow10(4) == 10000;
    assert Pow10(8) == 10000 * Pow10(4);
    assert Pow10(12) == 10000 * Pow10(8);
    assert Pow10(16) == 10000 * Pow10(12);
    assert Pow10(19) == 1000 * Pow10(16);
    assert Pow10(20) == 10 * Pow10(19);
    if n < 0 {
      DigitsLength(-n, 19);
    } else {
      DigitsLength(n, 20);
    }
  }

  // ---------------------------------------------------------------------------------------------
  // String slots
  // ---------------------------------------------------------------------------------------------

  const SLOT := 40

  function Cut(s: seq<byte>): seq<byte> {
    if |s| <= SLOT then s else s[..SLOT]
  }

  /** GetStringUpdateBuffer: a zeroed slot that the text is copied into. */
  function Slot(s: seq<byte>): (bs: seq<byte>)
    ensures |bs| == 40 && forall i :: 0 <= i < 40 ==> bs[i] == if i < |s| then s[i] else 0
  {
    Cut(s) + seq(SLOT - |Cut(s)|, _ => 0)
  }

  /** GetEPICSString on a full slot. */
  function UntilNul(s: seq<byte>): (t: seq<byte>)
    ensures |t| <= |s| && t == s[..|t|] && 0 !in t
    ensures |t| < |s| ==> s[|t|] == 0
  {
    if s == [] || s[0] == 0 then [] else [s[0]] + UntilNul(s[1..])
  }

  lemma {:induction false} UntilNulUnique(s: seq<byte>, k: nat)
    requires k <= |s| && 0 !in s[..k] && (k < |s| ==> s[k] == 0)
    ensures UntilNul(s) == s[..k]
  {
    var t := UntilNul(s);
    assert |t| == k;
  }

  /** A slot returns the text cut to 40 bytes and at its first NUL, for every text. */
  lemma {:induction false} SlotRoundTrip(s: seq<byte>)
    ensures UntilNul(Slot(s)) == UntilNul(Cut(s))
  {
    var c, t := Cut(s), UntilNul(Cut(s));
    assert Slot(s)[..|t|] == t;
    UntilNulUnique(Slot(s), |t|);
  }

  predicate PlainText(s: seq<byte>) {
    |s| <= SLOT && 0 !in s
  }

  lemma {:induction false} PlainTextExactly(s: seq<byte>)
    ensures UntilNul(Cut(s)) == s <==> PlainText(s)
  {
    if PlainText(s) {
      UntilNulUnique(s, |s|);
      assert s[..|s|] == s;
    }
  }
}
