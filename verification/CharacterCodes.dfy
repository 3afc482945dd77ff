/** Character codes and hexadecimal numerals shared by the STEP string decoder and encoder. */
module CharacterCodes {
  type Byte = n: nat | n < 0x100
  /** A 32-bit unit: `char32_t`, `unsigned int`, or the bit pattern of a `wchar_t`. */
  type Word = n: nat | n < 0x1_0000_0000

  const QUOTE: Byte := 0x27
  const SOLIDUS: Byte := 0x5C
  const DIGIT_0: Byte := 0x30
  const DIGIT_2: Byte := 0x32
  const DIGIT_4: Byte := 0x34
  const LETTER_F: Byte := 0x46
  const LETTER_N: Byte := 0x4E
  const LETTER_P: Byte := 0x50
  const LETTER_S: Byte := 0x53
  const LETTER_X: Byte := 0x58
  const LINE_FEED: Byte := 0x0A
  const CARRIAGE_RETURN: Byte := 0x0D

  predicate IsHexadecimal(c: Byte) {
    0x30 <= c <= 0x39 || 0x41 <= c <= 0x46
  }

  /** The digit value of `c`; the original macro is only applied to hexadecimal digits. */
  function HexToInt(c: Byte): (d: nat)
    requires IsHexadecimal(c)
    ensures d < 16
  {
    if 0x30 <= c <= 0x39 then c - 0x30 else c + 10 - 0x41
  }

  function HexDigit(d: nat): (c: Byte)
    requires d < 16
    ensures IsHexadecimal(c) && HexToInt(c) == d
  {
    if d < 10 then 0x30 + d else 0x41 + d - 10
  }

  predicate AllHexadecimal(ds: seq<Byte>) {
    forall i :: 0 <= i < |ds| ==> IsHexadecimal(ds[i])
  }

  /** 16^n */
  function Pow16(n: nat): (p: nat)
    ensures p > 0
  {
    if n == 0 then 1 else 16 * Pow16(n - 1)
  }

  /** The number a string of hexadecimal digits denotes, most significant digit first. */
  function HexValue(ds: seq<Byte>): (v: nat)
    requires AllHexadecimal(ds)
    ensures v < Pow16(|ds|)
  {
    if ds == [] then 0 else 16 * HexValue(ds[..|ds| - 1]) + HexToInt(ds[|ds| - 1])
  }

  /** `std::hex << std::uppercase`: the shortest numeral of `v`. */
  function HexNumeral(v: nat): (ds: seq<Byte>)
    ensures AllHexadecimal(ds) && HexValue(ds) == v
    ensures |ds| >= 1
  {
    if v < 16 then
      assert [HexDigit(v)][..0] == [];
      [HexDigit(v)]
    else
      var rest := HexNumeral(v / 16);
      assert (rest + [HexDigit(v % 16)])[..|rest|] == rest;
      rest + [HexDigit(v % 16)]
  }

  /** `std::setw(width) << std::setfill('0')`: pads on the left, never truncates. */
  function PadLeft(ds: seq<Byte>, width: nat): (r: seq<Byte>)
    ensures |r| == if |ds| < width then width else |ds|
    decreases width - |ds|
  {
    if |ds| < width then PadLeft([DIGIT_0] + ds, width) else ds
  }

  /** A number below 16^n has a shortest numeral of at most max(n, 1) digits. */
  lemma {:induction false} NumeralFits(v: nat, n: nat)
    requires n >= 1 && v < Pow16(n)
    ensures |HexNumeral(v)| <= n
  {
    if v >= 16 {
      assert Pow16(1) == 16;
      NumeralFits(v / 16, n - 1);
    }
  }

  lemma {:induction false} LeadingZero(ds: seq<Byte>)
    requires AllHexadecimal(ds)
    ensures AllHexadecimal([DIGIT_0] + ds) && HexValue([DIGIT_0] + ds) == HexValue(ds)
  {
    var zs := [DIGIT_0] + ds;
    if ds == [] {
      assert zs[..0] == [];
    } else {
      LeadingZero(ds[..|ds| - 1]);
      assert zs[..|zs| - 1] == [DIGIT_0] + ds[..|ds| - 1];
    }
  }

  lemma {:induction false} PaddingKeepsValue(ds: seq<Byte>, width: nat)
    requires AllHexadecimal(ds)
    ensures AllHexadecimal(PadLeft(ds, width)) && HexValue(PadLeft(ds, width)) == HexValue(ds)
    decreases width - |ds|
  {
    if |ds| < width {
      LeadingZero(ds);
      PaddingKeepsValue([DIGIT_0] + ds, width);
    }
  }

  /** Printing `v < 16^width` with a fixed width gives exactly `width` digits that denote `v`. */
  lemma FixedWidthNumeral(v: nat, width: nat)
    requires width >= 1 && v < Pow16(width)
    ensures var ds := PadLeft(HexNumeral(v), width);
            |ds| == width && AllHexadecimal(ds) && HexValue(ds) == v
  {
    NumeralFits(v, width);
    PaddingKeepsValue(HexNumeral(v), width);
  }

  lemma Pow16Table()
    ensures Pow16(0) == 1 && Pow16(1) == 0x10 && Pow16(2) == 0x100 && Pow16(3) == 0x1000
    ensures Pow16(4) == 0x1_0000 && Pow16(5) == 0x10_0000 && Pow16(6) == 0x100_0000
    ensures Pow16(7) == 0x1000_0000 && Pow16(8) == 0x1_0000_0000
  {
    assert Pow16(2) == 0x100;
    assert Pow16(4) == 0x1_0000;
    assert Pow16(6) == 0x100_0000;
  }

  /** A numeral of at most eight digits, as a 32-bit number. */
  function HexWord(ds: seq<Byte>): (v: Word)
    requires AllHexadecimal(ds) && |ds| <= 8
    ensures v == HexValue(ds)
  {
    Pow16Table();
    HexValue(ds)
  }

  lemma HexWordAppend(ds: seq<Byte>, c: Byte)
    requires AllHexadecimal(ds) && |ds| < 8 && IsHexadecimal(c)
    ensures AllHexadecimal(ds + [c]) && HexWord(ds + [c]) == 16 * HexWord(ds) + HexToInt(c)
  {
    assert (ds + [c])[..|ds|] == ds;
  }
}
