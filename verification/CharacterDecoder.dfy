/** The string decoder of src/ifcparse/IfcCharacterDecoder.cpp: `get` and `skip`. */
module CharacterDecoder {
  import opened CharacterCodes
  import opened Options

  // Bits of `parse_state`. Flags are combined with `+`, so on malformed text they carry
  // into neighbouring bits; a 32-bit word keeps that behaviour.
  const FIRST_SOLIDUS: bv32 := 0x2
  const PAGE: bv32 := 0x4
  const ALPHABET: bv32 := 0x8
  const SECOND_SOLIDUS: bv32 := 0x10
  const ALPHABET_DEFINITION: bv32 := 0x20
  const APOSTROPHE: bv32 := 0x40
  const ARBITRARY: bv32 := 0x80
  const EXTENDED2: bv32 := 0x100
  const EXTENDED4: bv32 := 0x200
  const THIRD_SOLIDUS: bv32 := 0x4_0000
  const ENDEXTENDED_X: bv32 := 0x8_0000
  const ENDEXTENDED_0: bv32 := 0x10_0000
  const IGNORED_DIRECTIVE: bv32 := 0x40_0000
  const ENCOUNTERED_HEX: bv32 := 0x80_0000
  const ALL_HEX: bv32 := 0x3_FC00

  /** HEX(N), the bit 9 + N. */
  function Hex(n: nat): bv32
    requires 1 <= n <= 8
  {
    match n
    case 1 => 0x400
    case 2 => 0x800
    case 3 => 0x1000
    case 4 => 0x2000
    case 5 => 0x4000
    case 6 => 0x8000
    case 7 => 0x1_0000
    case 8 => 0x2_0000
  }

  predicate Has(s: bv32, flag: bv32) { s & flag != 0 }

  /** `parse_state += flag` in 32-bit arithmetic. */
  function Plus(s: bv32, flag: bv32): bv32 { s + flag }

  predicate ExpectsAfterSolidus(s: bv32) { Has(s, FIRST_SOLIDUS) }

  predicate ExpectsNOrF(s: bv32) { Has(s, FIRST_SOLIDUS) && !Has(s, ARBITRARY) }

  predicate ExpectsArbitrary2(s: bv32) { Has(s, ARBITRARY) && !Has(s, SECOND_SOLIDUS) }

  predicate ExpectsAlphabetDefinition(s: bv32) { Has(s, FIRST_SOLIDUS) && Has(s, ALPHABET) }

  /** The macro's last two alternatives need EXTENDED4 or EXTENDED2, which already suffice alone. */
  predicate ExpectsSolidus(s: bv32) {
    || Has(s, ALPHABET_DEFINITION) || Has(s, PAGE) || Has(s, ARBITRARY) || Has(s, EXTENDED2)
    || Has(s, EXTENDED4) || Has(s, ENDEXTENDED_0) || Has(s, IGNORED_DIRECTIVE)
  }

  predicate ExpectsCharacter(s: bv32) { Has(s, PAGE) && Has(s, SECOND_SOLIDUS) }

  predicate ExpectsHex(s: bv32) {
    || Has(s, Hex(1)) || Has(s, Hex(3)) || Has(s, Hex(5)) || Has(s, Hex(6)) || Has(s, Hex(7))
    || (Has(s, ARBITRARY) && Has(s, SECOND_SOLIDUS)) || (Has(s, EXTENDED2) && Has(s, Hex(2)))
    || (Has(s, EXTENDED4) && Has(s, Hex(4)))
  }

  predicate ExpectsEndExtendedX(s: bv32) { Has(s, THIRD_SOLIDUS) }

  predicate ExpectsEndExtended0(s: bv32) { Has(s, ENDEXTENDED_X) }

  predicate IsValidAlphabetDefinition(c: Byte) { 0x41 <= c <= 0x49 }

  // ----- code pages -----

  /** The ISO 8859 tables; their contents are a parameter of the model, 0 marks "not defined". */
  type CodePages = t: seq<seq<Word>> | |t| == 16 && forall i :: 0 <= i < 16 ==> |t[i]| == 256
    witness seq(16, _ => seq(256, _ => 0))

  function ConvertCodepage(t: CodePages, codepage: int, c: int): (r: Option<Word>) {
    if codepage < 1 || codepage > 16 || codepage == 12 then None
    else if c < 0 || c > 255 then None
    else if t[codepage - 1][c] == 0 then None
    else Some(t[codepage - 1][c])
  }

  /** `char` is signed: bytes from 0x80 up stand for negative numbers. */
  function SignedChar(c: Byte): int { if c < 0x80 then c else c - 0x100 }

  /** Widening a signed `char` to a 32-bit `wchar_t`, as a bit pattern. */
  function Widen(c: Byte): Word { if c < 0x80 then c else 0xFFFF_FF00 + c }

  // ----- one turn of the decoding loop -----

  type HexCount = n: nat | n < 8

  datatype Decoder = Decoder(parseState: bv32, codepage: int, hex: Word, hexCount: HexCount, builder: seq<Word>)

  const START: Decoder := Decoder(0, 1, 0, 0, [QUOTE])

  datatype Turn =
    | Next(st: Decoder)   // the character was consumed
    | Stop                // `break`: the string ended before this character
    | Reject              // IfcInvalidTokenException
    | NotDefined          // `convert_codepage` threw

  predicate InvalidToken(s: bv32, c: Byte) {
    s != 0 && !((c == SOLIDUS && s == FIRST_SOLIDUS) || (c == QUOTE && s == APOSTROPHE))
  }

  /** The state after a solidus that a directive expects. */
  predicate EndsDirective(s: bv32) {
    Has(s, ALPHABET_DEFINITION) || Has(s, IGNORED_DIRECTIVE) || Has(s, ENDEXTENDED_0)
  }

  function AfterSolidus(s: bv32): bv32 {
    if Has(s, ENCOUNTERED_HEX) then Plus(s, THIRD_SOLIDUS) - ENCOUNTERED_HEX else Plus(s, SECOND_SOLIDUS)
  }

  /** The flag a keyword character adds, in the order the original tests them. */
  function Keyword(s: bv32, c: Byte): Option<bv32> {
    if c == LETTER_X && ExpectsEndExtendedX(s) then Some(ENDEXTENDED_X)
    else if c == DIGIT_0 && ExpectsEndExtended0(s) then Some(ENDEXTENDED_0)
    else if c == LETTER_X && ExpectsAfterSolidus(s) then Some(ARBITRARY)
    else if c == DIGIT_2 && ExpectsArbitrary2(s) then Some(EXTENDED2)
    else if c == DIGIT_4 && ExpectsArbitrary2(s) then Some(EXTENDED2 + EXTENDED4)
    else if c == LETTER_P && ExpectsAfterSolidus(s) then Some(ALPHABET)
    else if (c == LETTER_N || c == LETTER_F) && ExpectsNOrF(s) then Some(IGNORED_DIRECTIVE)
    else None
  }

  /** Whether a numeral of `count` digits is complete in state `s`. */
  predicate NumeralComplete(s: bv32, count: nat) {
    || (count == 2 && !Has(s, EXTENDED2))
    || (count == 4 && !Has(s, EXTENDED4))
    || count == 8
  }

  /** The state after the last digit of a numeral. */
  function AfterNumeral(s: bv32, count: nat): bv32 {
    if count == 2 then 0 else (s & !ALL_HEX) | ENCOUNTERED_HEX
  }

  /** `hex <<= 4; hex += digit` in 32-bit arithmetic. */
  function ShiftIn(hex: Word, c: Byte): Word
    requires IsHexadecimal(c)
  {
    (hex * 16 % 0x1_0000_0000 + HexToInt(c)) % 0x1_0000_0000
  }

  /** One more digit was read, making the pending number `v`. */
  function CountDigit(st: Decoder, v: Word): Decoder {
    var count := st.hexCount + 1;
    var s := Plus(st.parseState, Hex(count));
    if NumeralComplete(s, count) then
      st.(parseState := AfterNumeral(s, count), hex := 0, hexCount := 0, builder := st.builder + [v])
    else
      st.(parseState := s, hex := v, hexCount := count)
  }

  function Step(t: CodePages, st: Decoder, c: Byte): Turn {
    var s := st.parseState;
    if ExpectsCharacter(s) then
      match ConvertCodepage(t, st.codepage, SignedChar(c) + 0x80)
      case None => NotDefined
      case Some(w) => Next(st.(parseState := 0, builder := st.builder + [w]))
    else if c == QUOTE && s == 0 then Next(st.(parseState := APOSTROPHE))
    else if c == SOLIDUS && s == 0 then Next(st.(parseState := FIRST_SOLIDUS))
    else if c == SOLIDUS && ExpectsSolidus(s) then
      if EndsDirective(s) then Next(st.(parseState := 0, hex := 0, hexCount := 0))
      else Next(st.(parseState := AfterSolidus(s)))
    else if Keyword(s, c).Some? then Next(st.(parseState := Plus(s, Keyword(s, c).value)))
    else if IsValidAlphabetDefinition(c) && ExpectsAlphabetDefinition(s) then
      Next(st.(codepage := c - 0x40, parseState := Plus(s, ALPHABET_DEFINITION)))
    else if c == LETTER_S && ExpectsAfterSolidus(s) then Next(st.(parseState := Plus(s, PAGE)))
    else if IsHexadecimal(c) && ExpectsHex(s) then Next(CountDigit(st, ShiftIn(st.hex, c)))
    else if InvalidToken(s, c) then
      if s == APOSTROPHE && c != QUOTE then Stop else Reject
    else Next(st.(parseState := 0, hex := 0, hexCount := 0, builder := st.builder + [Widen(c)]))
  }

  // ----- whole runs -----

  /** How a call ended, with the characters it left unread. */
  datatype Outcome =
    | Finished(text: seq<Word>, rest: seq<Byte>)
    | Rejected(rest: seq<Byte>)
    | Undefined(rest: seq<Byte>)

  /** The loop of `get` on the characters it sees. */
  function Scan(t: CodePages, cs: seq<Byte>, st: Decoder): Outcome {
    if cs == [] || cs[0] == 0 then Finished(st.builder + [QUOTE], cs)
    else
      match Step(t, st, cs[0])
      case Next(st') => Scan(t, cs[1..], st')
      case Stop => Finished(st.builder + [QUOTE], cs)
      case Reject => Rejected(cs)
      case NotDefined => Undefined(cs)
  }

  lemma ScanTurn(t: CodePages, cs: seq<Byte>, st: Decoder)
    requires cs != [] && cs[0] != 0
    ensures Scan(t, cs, st) ==
            match Step(t, st, cs[0]) {
              case Next(st') => Scan(t, cs[1..], st')
              case Stop => Finished(st.builder + [QUOTE], cs)
              case Reject => Rejected(cs)
              case NotDefined => Undefined(cs)
            }
  {
  }

  lemma ScanEnd(t: CodePages, cs: seq<Byte>, st: Decoder)
    requires cs == [] || cs[0] == 0
    ensures Scan(t, cs, st) == Finished(st.builder + [QUOTE], cs)
  {
  }

  /** The turns over all of `cs`, stopping at the first that does not consume its character. */
  function Feed(t: CodePages, cs: seq<Byte>, st: Decoder): Turn {
    if cs == [] then Next(st)
    else
      match Step(t, st, cs[0])
      case Next(st') => Feed(t, cs[1..], st')
      case r => r
  }

  predicate NoNul(cs: seq<Byte>) { forall i :: 0 <= i < |cs| ==> cs[i] != 0 }

  lemma {:induction false} FeedAppend(t: CodePages, a: seq<Byte>, b: seq<Byte>, st: Decoder)
    ensures Feed(t, a + b, st) ==
            match Feed(t, a, st) { case Next(st') => Feed(t, b, st') case r => r }
  {
    if a == [] {
      assert a + b == b;
    } else {
      assert (a + b)[1..] == a[1..] + b;
      match Step(t, st, a[0])
      case Next(st') => FeedAppend(t, a[1..], b, st');
      case _ =>
    }
  }

  /** Reading a prefix that is consumed in full only moves the state. */
  lemma {:induction false} ScanPrefix(t: CodePages, a: seq<Byte>, b: seq<Byte>, st: Decoder)
    requires NoNul(a) && Feed(t, a, st).Next?
    ensures Scan(t, a + b, st) == Scan(t, b, Feed(t, a, st).st)
  {
    if a == [] {
      assert a + b == b;
    } else {
      assert (a + b)[1..] == a[1..] + b;
      ScanPrefix(t, a[1..], b, Step(t, st, a[0]).st);
    }
  }
}
