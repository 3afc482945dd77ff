/** Text and numerals as string literals write them. */
module LiteralText {
  import opened CharacterCodes

  const HEXADECIMAL := "0123456789ABCDEF"

  predicate IsAscii(s: string) { forall i :: 0 <= i < |s| ==> s[i] as int < 0x80 }

  /** The bytes of a literal. */
  function Ascii(s: string): (r: seq<Byte>)
    requires IsAscii(s)
    ensures |r| == |s| && forall i :: 0 <= i < |s| ==> r[i] == s[i] as int
  {
    seq(|s|, i requires 0 <= i < |s| && IsAscii(s) => s[i] as int)
  }

  predicate AllBelow(ds: seq<nat>, base: nat) { forall i :: 0 <= i < |ds| ==> ds[i] < base }

  /** The number the digits `ds` denote, most significant first. */
  function Number(base: nat, ds: seq<nat>): nat {
    if ds == [] then 0 else base * Number(base, ds[..|ds| - 1]) + ds[|ds| - 1]
  }

  /** The characters of `table` at the positions `ds`. */
  function Written(table: string, ds: seq<nat>): (r: seq<Byte>)
    requires IsAscii(table) && AllBelow(ds, |table|)
    ensures |r| == |ds| && forall i :: 0 <= i < |ds| ==> r[i] == table[ds[i]] as int
  {
    seq(|ds|, i requires 0 <= i < |ds| && IsAscii(table) && AllBelow(ds, |table|) => table[ds[i]] as int)
  }

  lemma WrittenFront(table: string, ds: seq<nat>)
    requires IsAscii(table) && AllBelow(ds, |table|) && ds != []
    ensures AllBelow(ds[..|ds| - 1], |table|) && Written(table, ds) != []
    ensures Written(table, ds)[..|ds| - 1] == Written(table, ds[..|ds| - 1])
  {
  }

  /** The hexadecimal digits are the characters of the literal, each worth its position. */
  lemma HexadecimalTable(d: nat)
    requires d < 16
    ensures IsAscii(HEXADECIMAL) && |HEXADECIMAL| == 16
    ensures IsHexadecimal(HEXADECIMAL[d] as int) && HexToInt(HEXADECIMAL[d] as int) == d
  {
  }

  lemma HexadecimalDigits(c: Byte)
    ensures IsHexadecimal(c) <==> exists d :: 0 <= d < 16 && HEXADECIMAL[d] as int == c
  {
    if IsHexadecimal(c) { assert HEXADECIMAL[HexToInt(c)] as int == c; }
  }

  predicate IsDigitTable(table: string) {
    && |table| == 16 && IsAscii(table)
    && forall d :: 0 <= d < 16 ==> IsHexadecimal(table[d] as int) && HexToInt(table[d] as int) == d
  }

  lemma {:induction false} NumeralInTable(table: string, ds: seq<nat>)
    requires IsDigitTable(table) && AllBelow(ds, |table|)
    ensures AllHexadecimal(Written(table, ds)) && HexValue(Written(table, ds)) == Number(16, ds)
  {
    hide HexToInt, IsHexadecimal;
    if ds != [] {
      WrittenFront(table, ds);
      NumeralInTable(table, ds[..|ds| - 1]);
    }
  }

  /** A numeral over the literal denotes the number of its positions. */
  lemma WrittenDenotes(ds: seq<nat>)
    requires AllBelow(ds, 16)
    ensures IsAscii(HEXADECIMAL) && AllBelow(ds, |HEXADECIMAL|)
    ensures AllHexadecimal(Written(HEXADECIMAL, ds)) && HexValue(Written(HEXADECIMAL, ds)) == Number(16, ds)
  {
    hide HexToInt, IsHexadecimal;
    HexadecimalTable(0);
    forall d | 0 <= d < 16
      ensures IsHexadecimal(HEXADECIMAL[d] as int) && HexToInt(HEXADECIMAL[d] as int) == d
    {
      HexadecimalTable(d);
    }
    NumeralInTable(HEXADECIMAL, ds);
  }
}
