/** The decoder states that well-formed text passes through, and the characters that lead out of them. */
module OrderlyStates {
  import opened CharacterCodes
  import opened CharacterDecoder
  import opened DirectiveGrammar

  // ----- the states well-formed text passes through -----

  /** The states outside blocks, and those of the digits of \X\hh. */
  predicate OutsideBlocks(s: bv32, count: nat) {
    || (count == 0 && (s == 0 || s == 0x40 || s == 0x2 || s == 0x6 || s == 0x16 || s == 0xA || s == 0x2A))
    || (count == 0 && (s == 0x40_0002 || s == 0x40_000A || s == 0x82 || s == 0x92 || s == 0x182 || s == 0x382))
    || (count == 1 && s == 0x492)
  }

  predicate InsideBlocks(s: bv32, count: nat) {
    || (count < 4 && (s == GroupState(false, false, count) || s == GroupState(false, true, count)))
    || (count < 8 && (s == GroupState(true, false, count) || s == GroupState(true, true, count)))
    || (count == 0 && (s == 0x4_0192 || s == 0xC_0192 || s == 0x1C_0192))
    || (count == 0 && (s == 0x4_0392 || s == 0xC_0392 || s == 0x1C_0392))
  }

  predicate OrderlyPair(s: bv32, count: nat) { OutsideBlocks(s, count) || InsideBlocks(s, count) }

  predicate Orderly(st: Decoder) { OrderlyPair(st.parseState, st.hexCount) }

  predicate StaysOrderly(t: CodePages, st: Decoder, c: Byte) { Step(t, st, c).Next? && Orderly(Step(t, st, c).st) }

  /** Every character of `cs` is consumed, and every state on the way is one of those. */
  predicate OrderlyRun(t: CodePages, cs: seq<Byte>, st: Decoder) {
    cs == [] || (StaysOrderly(t, st, cs[0]) && OrderlyRun(t, cs[1..], Step(t, st, cs[0]).st))
  }

  /** After the solidus, the X and the 0 of \X0. */
  function ClosingState(wide: bool, read: nat): bv32 {
    (if wide then 0x392 else 0x192) + (if read == 1 then 0x4_0000 else if read == 2 then 0xC_0000 else 0x1C_0000)
  }

  // ----- characters that lead astray -----

  lemma GroupStates()
    ensures GroupState(false, false, 0) == 0x192 && GroupState(false, true, 0) == 0x80_0192
    ensures GroupState(true, false, 0) == 0x392 && GroupState(true, true, 0) == 0x80_0392
    ensures GroupState(false, false, 1) == 0x592 && GroupState(false, true, 1) == 0x80_0592
    ensures GroupState(true, false, 1) == 0x792 && GroupState(true, true, 1) == 0x80_0792
  {
  }

  /** Where the wrong keyword, page letter or solidus leads. */
  lemma AstrayLow()
    ensures !OrderlyPair(0xE, 0) && !OrderlyPair(0x12, 0) && !OrderlyPair(0x2E, 0) && !OrderlyPair(0x32, 0)
    ensures !OrderlyPair(0x4A, 0) && !OrderlyPair(0x86, 0) && !OrderlyPair(0x8A, 0) && !OrderlyPair(0x96, 0)
    ensures !OrderlyPair(0x9A, 0) && !OrderlyPair(0xA2, 0) && !OrderlyPair(0xAA, 0) && !OrderlyPair(0x102, 0)
    ensures !OrderlyPair(0x112, 0) && !OrderlyPair(0x186, 0) && !OrderlyPair(0x18A, 0) && !OrderlyPair(0x202, 0)
  {
    hide GroupState;
    GroupStates();
  }

  lemma AstrayHigh()
    ensures !OrderlyPair(0x282, 0) && !OrderlyPair(0x386, 0) && !OrderlyPair(0x38A, 0) && !OrderlyPair(0x402, 0)
    ensures !OrderlyPair(0x482, 0) && !OrderlyPair(0x682, 0) && !OrderlyPair(0x40_0006, 0) && !OrderlyPair(0x40_000E, 0)
    ensures !OrderlyPair(0x40_0012, 0) && !OrderlyPair(0x40_002A, 0)
    ensures !OrderlyPair(0x40_0082, 0) && !OrderlyPair(0x40_008A, 0)
    ensures !OrderlyPair(0x80_0002, 0) && !OrderlyPair(0x80_000A, 0) && !OrderlyPair(0x512, 1) && !OrderlyPair(0x49A, 1)
    ensures !OrderlyPair(0x496, 1) && !OrderlyPair(0x4A2, 1)
  {
    hide GroupState;
    GroupStates();
  }

  lemma AstrayAfterQuote(t: CodePages, st: Decoder, c: Byte)
    requires st.parseState == 0x40 && st.hexCount == 0 && c != QUOTE
    ensures !StaysOrderly(t, st, c)
  {
    hide OrderlyPair;
  }

  lemma AstrayAfterSolidus(t: CodePages, st: Decoder, c: Byte)
    requires st.parseState == 0x2 && st.hexCount == 0
    requires c !in [SOLIDUS, LETTER_X, LETTER_P, LETTER_N, LETTER_F, LETTER_S]
    ensures !StaysOrderly(t, st, c)
  {
    hide OrderlyPair;
  }

  lemma AstrayAfterS(t: CodePages, st: Decoder, c: Byte)
    requires st.parseState == 0x6 && st.hexCount == 0 && c !in [SOLIDUS, LETTER_S]
    ensures !StaysOrderly(t, st, c)
  {
    hide OrderlyPair;
    AstrayLow();
    AstrayHigh();
  }

  lemma AstrayAfterP(t: CodePages, st: Decoder, c: Byte)
    requires st.parseState == 0xA && st.hexCount == 0 && !IsValidAlphabetDefinition(c) && c != LETTER_N
    ensures !StaysOrderly(t, st, c)
  {
    hide OrderlyPair;
    AstrayLow();
    AstrayHigh();
  }

  lemma AstrayAfterPage(t: CodePages, st: Decoder, c: Byte)
    requires st.parseState == 0x2A && st.hexCount == 0 && c != SOLIDUS
    ensures !StaysOrderly(t, st, c)
  {
    hide OrderlyPair;
    AstrayLow();
    AstrayHigh();
  }

  lemma AstrayAfterIgnored(t: CodePages, st: Decoder, c: Byte)
    requires st.hexCount == 0 && st.parseState == 0x40_0002 && c != SOLIDUS && c != LETTER_P
    ensures !StaysOrderly(t, st, c)
  {
    hide OrderlyPair;
    AstrayLow();
    AstrayHigh();
  }

  lemma AstrayAfterTwoIgnored(t: CodePages, st: Decoder, c: Byte)
    requires st.hexCount == 0 && st.parseState == 0x40_000A && c != SOLIDUS
    ensures !StaysOrderly(t, st, c)
  {
    hide OrderlyPair;
    AstrayLow();
    AstrayHigh();
  }

  lemma AstrayAfterX(t: CodePages, st: Decoder, c: Byte)
    requires st.parseState == 0x82 && st.hexCount == 0 && c !in [SOLIDUS, DIGIT_2, DIGIT_4]
    ensures !StaysOrderly(t, st, c)
  {
    hide OrderlyPair;
    AstrayLow();
    AstrayHigh();
  }

  lemma AstrayAfterXSolidus(t: CodePages, st: Decoder, c: Byte)
    requires st.parseState == 0x92 && st.hexCount == 0 && !IsHexadecimal(c)
    ensures !StaysOrderly(t, st, c)
  {
    hide OrderlyPair;
    AstrayLow();
    AstrayHigh();
  }

  lemma AstrayAfterXDigit(t: CodePages, st: Decoder, c: Byte)
    requires st.parseState == 0x492 && st.hexCount == 1 && !IsHexadecimal(c)
    ensures !StaysOrderly(t, st, c)
  {
    hide OrderlyPair;
    AstrayLow();
    AstrayHigh();
  }

  lemma AstrayAfterX2(t: CodePages, st: Decoder, c: Byte)
    requires st.parseState == 0x182 && st.hexCount == 0 && c != SOLIDUS
    ensures !StaysOrderly(t, st, c)
  {
    hide OrderlyPair;
    AstrayLow();
    AstrayHigh();
  }

  lemma AstrayAfterX4(t: CodePages, st: Decoder, c: Byte)
    requires st.parseState == 0x382 && st.hexCount == 0 && c != SOLIDUS
    ensures !StaysOrderly(t, st, c)
  {
    hide OrderlyPair;
    AstrayLow();
    AstrayHigh();
  }

  /** What a state inside a block expects. */
  lemma BlockExpects(s: bv32, wide: bool, some: bool, k: nat)
    requires k < Width(wide) && s == GroupState(wide, some, k)
    ensures s != 0 && s != FIRST_SOLIDUS && s != APOSTROPHE && !ExpectsCharacter(s)
    ensures ExpectsSolidus(s) && !EndsDirective(s) && ExpectsAfterSolidus(s)
    ensures !ExpectsEndExtendedX(s) && !ExpectsEndExtended0(s) && !ExpectsNOrF(s) && !ExpectsArbitrary2(s)
    ensures !ExpectsAlphabetDefinition(s)
  {
  }

  // The ten lowest bits tell orderly states from others.

  function Low(s: bv32): bv32 { s & 0x3FF }

  predicate KnownLow(l: bv32) {
    || l == 0 || l == 0x40 || l == 0x2 || l == 0x6 || l == 0x16 || l == 0xA || l == 0x2A || l == 0x82 || l == 0x92
    || l == 0x182 || l == 0x382 || l == 0x192 || l == 0x392
  }

  lemma LowOfSum(s: bv32, flag: bv32)
    requires (Low(s) == 0x192 || Low(s) == 0x392) && (flag == 0x80 || flag == 0x8 || flag == 0x4 || flag == 0x10)
    ensures !KnownLow(Low(Plus(s, flag)))
  {
  }

  lemma LowOfBlock(wide: bool, some: bool, k: nat)
    requires k < Width(wide)
    ensures Low(GroupState(wide, some, k)) == if wide then 0x392 else 0x192
    ensures !Has(GroupState(wide, some, k), THIRD_SOLIDUS)
  {
  }

  lemma OrderlyLow(s: bv32, count: nat)
    requires OrderlyPair(s, count)
    ensures KnownLow(Low(s)) && (Has(s, THIRD_SOLIDUS) ==> count == 0)
  {
    hide GroupState, Low, KnownLow;
    KnownLows();
    if InsideBlocks(s, count) && count < 8 {
      if count < 4 {
        LowOfBlock(false, false, count);
        LowOfBlock(false, true, count);
      }
      LowOfBlock(true, false, count);
      LowOfBlock(true, true, count);
    }
  }

  lemma KnownLows()
    ensures KnownLow(Low(0)) && KnownLow(Low(0x40)) && KnownLow(Low(0x2)) && KnownLow(Low(0x6)) && KnownLow(Low(0x16))
    ensures KnownLow(Low(0xA)) && KnownLow(Low(0x2A)) && KnownLow(Low(0x82)) && KnownLow(Low(0x92))
    ensures KnownLow(Low(0x182)) && KnownLow(Low(0x382)) && KnownLow(Low(0x40_0002)) && KnownLow(Low(0x40_000A))
    ensures KnownLow(Low(0x492)) && KnownLow(0x192) && KnownLow(0x392)
    ensures KnownLow(Low(0x4_0192)) && KnownLow(Low(0xC_0192)) && KnownLow(Low(0x1C_0192))
    ensures KnownLow(Low(0x4_0392)) && KnownLow(Low(0xC_0392)) && KnownLow(Low(0x1C_0392))
  {
  }

  lemma DisorderlySum(s: bv32, flag: bv32, count: nat)
    requires (Low(s) == 0x192 || Low(s) == 0x392) && (flag == 0x80 || flag == 0x8 || flag == 0x4 || flag == 0x10)
    ensures !OrderlyPair(Plus(s, flag), count)
  {
    hide OrderlyPair, Plus, Low, KnownLow;
    LowOfSum(s, flag);
    if OrderlyPair(Plus(s, flag), count) { OrderlyLow(Plus(s, flag), count); }
  }

  /** A solidus behind some digits of a group sets THIRD_SOLIDUS or adds to the low bits. */
  lemma DisorderlySolidus(s: bv32, wide: bool, some: bool, k: nat)
    requires k < Width(wide) && s == GroupState(wide, some, k) && (!some || k != 0)
    ensures !OrderlyPair(AfterSolidus(s), k)
  {
    LowOfBlock(wide, some, k);
    EncounteredHex(wide, some, k);
    if some {
      assert Has(AfterSolidus(s), THIRD_SOLIDUS);
      hide OrderlyPair, GroupState, AfterSolidus, Has;
      if OrderlyPair(AfterSolidus(s), k) { OrderlyLow(AfterSolidus(s), k); }
    } else {
      hide OrderlyPair, GroupState, Has;
      DisorderlySum(s, SECOND_SOLIDUS, k);
    }
  }

  lemma EncounteredHex(wide: bool, some: bool, k: nat)
    requires k < Width(wide)
    ensures Has(GroupState(wide, some, k), ENCOUNTERED_HEX) == some
  {
  }

  lemma AstrayInGroup(t: CodePages, st: Decoder, wide: bool, some: bool, k: nat, c: Byte)
    requires k < Width(wide) && st.hexCount == k && st.parseState == GroupState(wide, some, k)
    requires !IsHexadecimal(c) && (c != SOLIDUS || k != 0 || !some)
    ensures !StaysOrderly(t, st, c)
  {
    hide Has, Plus, AfterSolidus, EndsDirective, ExpectsCharacter, ExpectsSolidus, ExpectsAfterSolidus,
      ExpectsEndExtendedX, ExpectsEndExtended0, ExpectsNOrF, ExpectsArbitrary2, ExpectsAlphabetDefinition,
      GroupState, OrderlyPair, ExpectsHex, Low;
    var s := st.parseState;
    BlockExpects(s, wide, some, k);
    LowOfBlock(wide, some, k);
    DisorderlySum(s, ARBITRARY, k);
    DisorderlySum(s, ALPHABET, k);
    DisorderlySum(s, PAGE, k);
    if !some || k != 0 { DisorderlySolidus(s, wide, some, k); }
  }

  lemma AstrayWhenClosing(t: CodePages, st: Decoder, wide: bool, read: nat, c: Byte)
    requires 1 <= read <= 3 && st.hexCount == 0 && st.parseState == ClosingState(wide, read)
    requires c != (if read == 1 then LETTER_X else if read == 2 then DIGIT_0 else SOLIDUS)
    ensures !StaysOrderly(t, st, c)
  {
    ClosingExpects(st.parseState, wide, read);
    LeavingClosing(st.parseState, wide, read);
    hide Has, Plus, AfterSolidus, EndsDirective, ExpectsCharacter, ExpectsSolidus, ExpectsAfterSolidus,
      ExpectsEndExtendedX, ExpectsEndExtended0, ExpectsNOrF, ExpectsArbitrary2, ExpectsAlphabetDefinition,
      ClosingState, OrderlyPair, ExpectsHex, AfterNumeral, NumeralComplete, Hex;
  }

  lemma ClosingExpects(s: bv32, wide: bool, read: nat)
    requires 1 <= read <= 3 && s == ClosingState(wide, read)
    ensures s != 0 && !ExpectsCharacter(s) && ExpectsSolidus(s) && ExpectsAfterSolidus(s) && ExpectsEndExtendedX(s)
    ensures (EndsDirective(s) <==> read == 3) && (ExpectsEndExtended0(s) <==> read >= 2)
    ensures !ExpectsNOrF(s) && !ExpectsArbitrary2(s) && !ExpectsAlphabetDefinition(s)
    ensures !NumeralComplete(Plus(s, Hex(1)), 1)
  {
  }

  lemma LeavingClosing(s: bv32, wide: bool, read: nat)
    requires 1 <= read <= 3 && s == ClosingState(wide, read)
    ensures !OrderlyPair(Plus(s, ALPHABET), 0) && !OrderlyPair(Plus(s, PAGE), 0)
    ensures read != 1 ==> !OrderlyPair(Plus(s, ENDEXTENDED_X), 0)
    ensures read == 3 ==> !OrderlyPair(Plus(s, ENDEXTENDED_0), 0)
    ensures read != 3 ==> !OrderlyPair(AfterSolidus(s), 0)
    ensures !OrderlyPair(Plus(s, Hex(1)), 1)
  {
    assert Low(s) == 0x192 || Low(s) == 0x392;
    assert read != 3 ==> AfterSolidus(s) == Plus(s, SECOND_SOLIDUS);
    assert Has(Plus(s, Hex(1)), THIRD_SOLIDUS);
    DisorderlySum(s, ALPHABET, 0);
    DisorderlySum(s, PAGE, 0);
    DisorderlySum(s, SECOND_SOLIDUS, 0);
    if OrderlyPair(Plus(s, Hex(1)), 1) { OrderlyLow(Plus(s, Hex(1)), 1); }
    if read != 1 { LeavingClosingTwice(s, wide, read); }
  }

  lemma LeavingClosingTwice(s: bv32, wide: bool, read: nat)
    requires 2 <= read <= 3 && s == ClosingState(wide, read)
    ensures !OrderlyPair(Plus(s, ENDEXTENDED_X), 0)
    ensures read == 3 ==> !OrderlyPair(Plus(s, ENDEXTENDED_0), 0)
  {
  }
}
