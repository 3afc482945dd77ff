/** The control directives of ISO 10303-21, section 6.3.3, and their meaning to the decoder. */
module DirectiveGrammar {
  import opened CharacterCodes
  import opened CharacterDecoder
  import opened Options

  datatype Item =
    | Plain(c: Byte)                              // any character but NUL, quote and solidus
    | DoubledQuote
    | DoubledSolidus
    | PageCharacter(c: Byte)                      // \S\c
    | SelectPage(letter: Byte)                    // \PA\ .. \PI\ without \PF\
    | ArbitraryByte(high: Byte, low: Byte)        // \X\hh
    | Extended(wide: bool, groups: seq<seq<Byte>>) // \X2\....\X0\ or \X4\........\X0\
    | Ignored(letters: seq<Byte>)                 // \N\, \F\, \PN\ and \PF\

  function Width(wide: bool): nat { if wide then 8 else 4 }

  predicate IsGroup(wide: bool, g: seq<Byte>) { |g| == Width(wide) && AllHexadecimal(g) }

  predicate AllGroups(wide: bool, groups: seq<seq<Byte>>) { forall g :: g in groups ==> IsGroup(wide, g) }

  predicate WellFormed(it: Item) {
    match it
    case Plain(c) => c != 0 && c != QUOTE && c != SOLIDUS
    case DoubledQuote => true
    case DoubledSolidus => true
    case PageCharacter(c) => c != 0
    case SelectPage(letter) => IsValidAlphabetDefinition(letter) && letter != LETTER_F
    case ArbitraryByte(high, low) => IsHexadecimal(high) && IsHexadecimal(low)
    case Extended(wide, groups) => groups != [] && AllGroups(wide, groups)
    case Ignored(letters) => letters in [[LETTER_N], [LETTER_F], [LETTER_P, LETTER_N], [LETTER_P, LETTER_F]]
  }

  predicate AllWellFormed(items: seq<Item>) { forall it :: it in items ==> WellFormed(it) }

  // ----- spelling -----

  function Concat(groups: seq<seq<Byte>>): seq<Byte> {
    if groups == [] then [] else groups[0] + Concat(groups[1..])
  }

  function Opening(wide: bool): seq<Byte> {
    [SOLIDUS, LETTER_X, if wide then DIGIT_4 else DIGIT_2, SOLIDUS]
  }

  const CLOSING: seq<Byte> := [SOLIDUS, LETTER_X, DIGIT_0, SOLIDUS]

  function Spelling(it: Item): seq<Byte> {
    match it
    case Plain(c) => [c]
    case DoubledQuote => [QUOTE, QUOTE]
    case DoubledSolidus => [SOLIDUS, SOLIDUS]
    case PageCharacter(c) => [SOLIDUS, LETTER_S, SOLIDUS, c]
    case SelectPage(letter) => [SOLIDUS, LETTER_P, letter, SOLIDUS]
    case ArbitraryByte(high, low) => [SOLIDUS, LETTER_X, SOLIDUS, high, low]
    case Extended(wide, groups) => Opening(wide) + Concat(groups) + CLOSING
    case Ignored(letters) => [SOLIDUS] + letters + [SOLIDUS]
  }

  function Spell(items: seq<Item>): seq<Byte> {
    if items == [] then [] else Spelling(items[0]) + Spell(items[1..])
  }

  // ----- meaning -----

  function GroupValues(wide: bool, groups: seq<seq<Byte>>): (r: seq<Word>)
    requires AllGroups(wide, groups)
  {
    if groups == [] then [] else [GroupValue(wide, groups[0])] + GroupValues(wide, groups[1..])
  }

  function GroupValue(wide: bool, g: seq<Byte>): (v: Word)
    requires IsGroup(wide, g)
  {
    HexWord(g)
  }

  /** The code points one item adds, under a code page; None when the page has no such character. */
  function Meaning(t: CodePages, codepage: int, it: Item): Option<seq<Word>>
    requires WellFormed(it)
  {
    match it
    case Plain(c) => Some([Widen(c)])
    case DoubledQuote => Some([QUOTE])
    case DoubledSolidus => Some([SOLIDUS])
    case PageCharacter(c) =>
      (match ConvertCodepage(t, codepage, SignedChar(c) + 0x80) case None => None case Some(w) => Some([w]))
    case SelectPage(_) => Some([])
    case ArbitraryByte(high, low) => Some([16 * HexToInt(high) + HexToInt(low)])
    case Extended(wide, groups) => Some(GroupValues(wide, groups))
    case Ignored(_) => Some([])
  }

  function PageAfter(codepage: int, it: Item): int {
    if it.SelectPage? then it.letter - 0x40 else codepage
  }

  /** What a list of items followed by a closing quote and `tail` decodes to. */
  function Interpretation(t: CodePages, codepage: int, text: seq<Word>, items: seq<Item>, tail: seq<Byte>): Outcome
    requires AllWellFormed(items)
    decreases items
  {
    if items == [] then Finished(text + [QUOTE], tail)
    else
      match Meaning(t, codepage, items[0])
      case None => Undefined([items[0].c] + Spell(items[1..]) + [QUOTE] + tail)
      case Some(ws) => Interpretation(t, PageAfter(codepage, items[0]), text + ws, items[1..], tail)
  }

  /** Between two items: no directive pending, no digit pending. */
  function Resting(codepage: int, text: seq<Word>): Decoder { Decoder(0, codepage, 0, 0, text) }

  // ----- hexadecimal accumulation -----

  /** The flags of the first `k` digits of a numeral. */
  function DigitFlags(k: nat): bv32
    requires k < 8
  {
    match k
    case 0 => 0
    case 1 => 0x400
    case 2 => 0xC00
    case 3 => 0x1C00
    case 4 => 0x3C00
    case 5 => 0x7C00
    case 6 => 0xFC00
    case 7 => 0x1_FC00
  }

  /** The state inside a block, before the first group or after a completed one. */
  function BlockState(wide: bool, some: bool): bv32 {
    if wide then (if some then 0x80_0392 else 0x392) else (if some then 0x80_0192 else 0x192)
  }

  /** The state inside a block after `k` digits of the current group. */
  function GroupState(wide: bool, some: bool, k: nat): bv32
    requires k < Width(wide)
  {
    BlockState(wide, some) + DigitFlags(k)
  }

  /** States whose next hexadecimal digit is read as part of a numeral. */
  predicate AwaitsHex(s: bv32) {
    && s != 0 && !ExpectsCharacter(s) && ExpectsHex(s) && !ExpectsArbitrary2(s)
    && !ExpectsEndExtended0(s) && !ExpectsNOrF(s) && !ExpectsAlphabetDefinition(s)
  }

  lemma HexDigitIsTaken(t: CodePages, st: Decoder, c: Byte)
    requires AwaitsHex(st.parseState) && IsHexadecimal(c)
    ensures Step(t, st, c) == Next(CountDigit(st, ShiftIn(st.hex, c)))
  {
  }

  /** The flags around a digit in the middle of a group. */
  lemma InsideBlock(wide: bool, some: bool, k: nat)
    requires k + 1 < Width(wide)
    ensures var s := Plus(GroupState(wide, some, k), Hex(k + 1));
            AwaitsHex(GroupState(wide, some, k)) && !NumeralComplete(s, k + 1) && s == GroupState(wide, some, k + 1)
  {
  }

  /** The flags around the last digit of a group. */
  lemma BlockEnd(wide: bool, some: bool)
    ensures var w := Width(wide);
            var s := Plus(GroupState(wide, some, w - 1), Hex(w));
            AwaitsHex(GroupState(wide, some, w - 1)) && NumeralComplete(s, w)
            && AfterNumeral(s, w) == GroupState(wide, true, 0)
  {
  }

  /** No 32-bit shift loses a digit: shifting into a numeral of at most seven digits appends to it. */
  lemma ShiftAppendsDigit(ds: seq<Byte>, c: Byte)
    requires AllHexadecimal(ds) && IsHexadecimal(c) && |ds| < 8
    ensures AllHexadecimal(ds + [c]) && ShiftIn(HexWord(ds), c) == HexWord(ds + [c])
  {
    HexWordAppend(ds, c);
  }

  function InBlock(st: Decoder, wide: bool, some: bool, k: nat, hex: Word): Decoder
    requires k < Width(wide)
  {
    st.(parseState := GroupState(wide, some, k), hex := hex, hexCount := k)
  }

  /** Inside a block with the digits `ds` of the current group read. */
  function InGroup(st: Decoder, wide: bool, some: bool, ds: seq<Byte>): Decoder
    requires AllHexadecimal(ds) && |ds| < Width(wide)
  {
    InBlock(st, wide, some, |ds|, HexWord(ds))
  }

  lemma CountInside(st: Decoder, wide: bool, some: bool, k: nat, hex: Word, v: Word)
    requires k + 1 < Width(wide)
    ensures CountDigit(InBlock(st, wide, some, k, hex), v) == InBlock(st, wide, some, k + 1, v)
  {
    hide GroupState, Plus, Hex, NumeralComplete, AfterNumeral, AwaitsHex;
    InsideBlock(wide, some, k);
  }

  lemma CountAtEnd(st: Decoder, wide: bool, some: bool, k: nat, hex: Word, v: Word)
    requires k + 1 == Width(wide)
    ensures CountDigit(InBlock(st, wide, some, k, hex), v)
            == InBlock(st.(builder := st.builder + [v]), wide, true, 0, 0)
  {
    hide GroupState, Plus, Hex, NumeralComplete, AfterNumeral, AwaitsHex;
    BlockEnd(wide, some);
  }

  lemma DigitInGroup(t: CodePages, st: Decoder, wide: bool, some: bool, ds: seq<Byte>, c: Byte)
    requires AllHexadecimal(ds) && |ds| + 1 < Width(wide) && IsHexadecimal(c)
    ensures AllHexadecimal(ds + [c])
    ensures Step(t, InGroup(st, wide, some, ds), c) == Next(InGroup(st, wide, some, ds + [c]))
  {
    hide Step, GroupState, CountDigit, ShiftIn, AwaitsHex, HexWord;
    InsideBlock(wide, some, |ds|);
    HexDigitIsTaken(t, InGroup(st, wide, some, ds), c);
    ShiftAppendsDigit(ds, c);
    CountInside(st, wide, some, |ds|, HexWord(ds), HexWord(ds + [c]));
  }

  lemma LastDigit(t: CodePages, st: Decoder, wide: bool, some: bool, ds: seq<Byte>, c: Byte)
    requires AllHexadecimal(ds) && |ds| + 1 == Width(wide) && IsHexadecimal(c)
    ensures IsGroup(wide, ds + [c])
    ensures Step(t, InGroup(st, wide, some, ds), c)
            == Next(InGroup(st.(builder := st.builder + [GroupValue(wide, ds + [c])]), wide, true, []))
  {
    hide Step, GroupState, CountDigit, ShiftIn, AwaitsHex, HexWord;
    BlockEnd(wide, some);
    HexDigitIsTaken(t, InGroup(st, wide, some, ds), c);
    ShiftAppendsDigit(ds, c);
    CountAtEnd(st, wide, some, |ds|, HexWord(ds), HexWord(ds + [c]));
  }

  // ----- feeding spelled text -----

  lemma FeedOne(t: CodePages, c: Byte, st: Decoder)
    ensures Feed(t, [c], st) == Step(t, st, c)
  {
    assert [c][1..] == [];
    match Step(t, st, c) { case Next(st') => assert Feed(t, [], st') == Next(st'); case _ => }
  }

  /** Appends one consumed character to a prefix that is already known to be consumed. */
  lemma FeedThen(t: CodePages, cs: seq<Byte>, c: Byte, st: Decoder, mid: Decoder)
    requires Feed(t, cs, st) == Next(mid)
    ensures Feed(t, cs + [c], st) == Step(t, mid, c)
  {
    FeedAppend(t, cs, [c], st);
    FeedOne(t, c, mid);
  }

  lemma {:induction false} FeedDigits(t: CodePages, st: Decoder, wide: bool, some: bool, ds: seq<Byte>)
    requires AllHexadecimal(ds) && |ds| < Width(wide)
    ensures Feed(t, ds, InGroup(st, wide, some, [])) == Next(InGroup(st, wide, some, ds))
  {
    if ds != [] {
      var k := |ds| - 1;
      FeedDigits(t, st, wide, some, ds[..k]);
      assert ds == ds[..k] + [ds[k]];
      FeedThen(t, ds[..k], ds[k], InGroup(st, wide, some, []), InGroup(st, wide, some, ds[..k]));
      DigitInGroup(t, st, wide, some, ds[..k], ds[k]);
    }
  }

  lemma FeedGroup(t: CodePages, st: Decoder, wide: bool, some: bool, g: seq<Byte>)
    requires IsGroup(wide, g)
    ensures Feed(t, g, InGroup(st, wide, some, []))
            == Next(InGroup(st.(builder := st.builder + [GroupValue(wide, g)]), wide, true, []))
  {
    var k := |g| - 1;
    assert g == g[..k] + [g[k]];
    FeedDigits(t, st, wide, some, g[..k]);
    FeedThen(t, g[..k], g[k], InGroup(st, wide, some, []), InGroup(st, wide, some, g[..k]));
    LastDigit(t, st, wide, some, g[..k], g[k]);
  }

  lemma FeedBoth(t: CodePages, a: seq<Byte>, b: seq<Byte>, st: Decoder, mid: Decoder, end: Decoder)
    requires Feed(t, a, st) == Next(mid) && Feed(t, b, mid) == Next(end)
    ensures Feed(t, a + b, st) == Next(end)
  {
    FeedAppend(t, a, b, st);
  }

  lemma {:induction false} FeedGroups(t: CodePages, st: Decoder, wide: bool, some: bool, groups: seq<seq<Byte>>)
    requires AllGroups(wide, groups)
    ensures Feed(t, Concat(groups), InGroup(st, wide, some, []))
            == Next(InGroup(st.(builder := st.builder + GroupValues(wide, groups)), wide, some || groups != [], []))
    decreases groups
  {
    if groups == [] {
      assert st.builder + [] == st.builder;
    } else {
      var v, vs := GroupValue(wide, groups[0]), GroupValues(wide, groups[1..]);
      var mid := st.(builder := st.builder + [v]);
      var end := mid.(builder := mid.builder + vs);
      assert end == st.(builder := st.builder + GroupValues(wide, groups)) by {
        assert st.builder + [v] + vs == st.builder + ([v] + vs);
      }
      FeedGroup(t, st, wide, some, groups[0]);
      FeedGroups(t, mid, wide, true, groups[1..]);
      FeedBoth(t, groups[0], Concat(groups[1..]), InGroup(st, wide, some, []), InGroup(mid, wide, true, []),
               InGroup(end, wide, true, []));
    }
  }

  lemma FeedFour(t: CodePages, a: Byte, b: Byte, c: Byte, d: Byte, st: Decoder, s1: Decoder, s2: Decoder, s3: Decoder)
    requires Step(t, st, a) == Next(s1) && Step(t, s1, b) == Next(s2) && Step(t, s2, c) == Next(s3)
    ensures Feed(t, [a, b, c, d], st) == Step(t, s3, d)
  {
    FeedOne(t, a, st);
    FeedThen(t, [a], b, st, s1);
    assert [a] + [b] == [a, b];
    FeedThen(t, [a, b], c, st, s2);
    assert [a, b] + [c] == [a, b, c];
    FeedThen(t, [a, b, c], d, st, s3);
    assert [a, b, c] + [d] == [a, b, c, d];
  }

  lemma FeedOpening(t: CodePages, wide: bool, codepage: int, text: seq<Word>)
    ensures Feed(t, Opening(wide), Resting(codepage, text)) == Next(InGroup(Resting(codepage, text), wide, false, []))
  {
    var st := Resting(codepage, text);
    FeedFour(t, SOLIDUS, LETTER_X, if wide then DIGIT_4 else DIGIT_2, SOLIDUS, st,
             st.(parseState := 0x2), st.(parseState := 0x82), st.(parseState := if wide then 0x382 else 0x182));
  }

  lemma FeedClosing(t: CodePages, wide: bool, codepage: int, text: seq<Word>)
    ensures Feed(t, CLOSING, InGroup(Resting(codepage, text), wide, true, [])) == Next(Resting(codepage, text))
  {
    var st := Resting(codepage, text);
    var base: bv32 := if wide then 0x392 else 0x192;
    FeedFour(t, SOLIDUS, LETTER_X, DIGIT_0, SOLIDUS, InGroup(st, wide, true, []), st.(parseState := base + 0x4_0000),
             st.(parseState := base + 0xC_0000), st.(parseState := base + 0x1C_0000));
  }

  lemma FeedExtended(t: CodePages, codepage: int, text: seq<Word>, wide: bool, groups: seq<seq<Byte>>)
    requires WellFormed(Extended(wide, groups))
    ensures Feed(t, Spelling(Extended(wide, groups)), Resting(codepage, text))
            == Next(Resting(codepage, text + GroupValues(wide, groups)))
  {
    var st := Resting(codepage, text);
    FeedAppend(t, Opening(wide) + Concat(groups), CLOSING, st);
    FeedAppend(t, Opening(wide), Concat(groups), st);
    FeedOpening(t, wide, codepage, text);
    FeedGroups(t, st, wide, false, groups);
    FeedClosing(t, wide, codepage, text + GroupValues(wide, groups));
  }

  /** The two digits after \X\. */
  lemma ArbitraryDigits(t: CodePages, st: Decoder, high: Byte, low: Byte)
    requires IsHexadecimal(high) && IsHexadecimal(low)
    requires st.parseState == 0x92 && st.hex == 0 && st.hexCount == 0
    ensures var mid := st.(parseState := 0x492, hex := HexToInt(high), hexCount := 1);
            && Step(t, st, high) == Next(mid)
            && Step(t, mid, low) == Next(Resting(st.codepage, st.builder + [16 * HexToInt(high) + HexToInt(low)]))
  {
    var mid := st.(parseState := 0x492, hex := HexToInt(high), hexCount := 1);
    HexWordAppend([high], low);
    HexWordAppend([], high);
    assert [] + [high] == [high];
    ArbitraryFlags();
    HexDigitIsTaken(t, st, high);
    ShiftAppendsDigit([], high);
    HexDigitIsTaken(t, mid, low);
    ShiftAppendsDigit([high], low);
  }

  lemma ArbitraryFlags()
    ensures AwaitsHex(0x92) && !NumeralComplete(0x92 + Hex(1), 1) && 0x92 + Hex(1) == 0x492
    ensures AwaitsHex(0x492) && NumeralComplete(0x492 + Hex(2), 2) && AfterNumeral(0x492 + Hex(2), 2) == 0
  {
  }

  lemma FeedArbitrary(t: CodePages, codepage: int, text: seq<Word>, high: Byte, low: Byte)
    requires IsHexadecimal(high) && IsHexadecimal(low)
    ensures Feed(t, Spelling(ArbitraryByte(high, low)), Resting(codepage, text))
            == Next(Resting(codepage, text + [16 * HexToInt(high) + HexToInt(low)]))
  {
    var st := Resting(codepage, text);
    var s3 := st.(parseState := 0x92);
    ArbitraryDigits(t, s3, high, low);
    FeedFour(t, SOLIDUS, LETTER_X, SOLIDUS, high, st, st.(parseState := 0x2), st.(parseState := 0x82), s3);
    assert [SOLIDUS, LETTER_X, SOLIDUS, high, low] == [SOLIDUS, LETTER_X, SOLIDUS, high] + [low];
    FeedThen(t, [SOLIDUS, LETTER_X, SOLIDUS, high], low, st,
             s3.(parseState := 0x492, hex := HexToInt(high), hexCount := 1));
  }

  lemma FeedIgnored(t: CodePages, codepage: int, text: seq<Word>, letters: seq<Byte>)
    requires WellFormed(Ignored(letters))
    ensures Feed(t, Spelling(Ignored(letters)), Resting(codepage, text)) == Next(Resting(codepage, text))
  {
    var st := Resting(codepage, text);
    if |letters| == 1 {
      FeedOne(t, SOLIDUS, st);
      FeedThen(t, [SOLIDUS], letters[0], st, st.(parseState := 0x2));
      FeedThen(t, [SOLIDUS] + [letters[0]], SOLIDUS, st, st.(parseState := 0x40_0002));
      assert Spelling(Ignored(letters)) == [SOLIDUS] + [letters[0]] + [SOLIDUS];
    } else {
      FeedFour(t, SOLIDUS, LETTER_P, letters[1], SOLIDUS, st,
               st.(parseState := 0x2), st.(parseState := 0xA), st.(parseState := 0x40_000A));
      assert Spelling(Ignored(letters)) == [SOLIDUS, LETTER_P, letters[1], SOLIDUS];
    }
  }

  lemma FeedPlain(t: CodePages, codepage: int, text: seq<Word>, c: Byte)
    requires c != QUOTE && c != SOLIDUS
    ensures Feed(t, [c], Resting(codepage, text)) == Next(Resting(codepage, text + [Widen(c)]))
  {
    FeedOne(t, c, Resting(codepage, text));
  }

  lemma FeedDoubled(t: CodePages, codepage: int, text: seq<Word>, c: Byte)
    requires c == QUOTE || c == SOLIDUS
    ensures Feed(t, [c, c], Resting(codepage, text)) == Next(Resting(codepage, text + [c]))
  {
    var st := Resting(codepage, text);
    FeedOne(t, c, st);
    FeedThen(t, [c], c, st, st.(parseState := if c == QUOTE then APOSTROPHE else FIRST_SOLIDUS));
    assert [c] + [c] == [c, c];
  }

  lemma FeedPageCharacter(t: CodePages, codepage: int, text: seq<Word>, c: Byte)
    ensures Feed(t, [SOLIDUS, LETTER_S, SOLIDUS, c], Resting(codepage, text)) ==
            match ConvertCodepage(t, codepage, SignedChar(c) + 0x80) {
              case None => NotDefined
              case Some(w) => Next(Resting(codepage, text + [w]))
            }
  {
    hide ConvertCodepage;
    var st := Resting(codepage, text);
    FeedFour(t, SOLIDUS, LETTER_S, SOLIDUS, c, st,
             st.(parseState := 0x2), st.(parseState := 0x6), st.(parseState := 0x16));
  }

  lemma FeedSelectPage(t: CodePages, codepage: int, text: seq<Word>, letter: Byte)
    requires IsValidAlphabetDefinition(letter) && letter != LETTER_F
    ensures Feed(t, [SOLIDUS, LETTER_P, letter, SOLIDUS], Resting(codepage, text))
            == Next(Resting(letter - 0x40, text))
  {
    var st := Resting(codepage, text);
    FeedFour(t, SOLIDUS, LETTER_P, letter, SOLIDUS, st, st.(parseState := 0x2), st.(parseState := 0xA),
             st.(parseState := 0x2A, codepage := letter - 0x40));
  }

  /** One well-formed item takes the decoder from rest to rest, adding exactly the item's meaning. */
  lemma ItemIsDecoded(t: CodePages, codepage: int, text: seq<Word>, it: Item)
    requires WellFormed(it)
    ensures Feed(t, Spelling(it), Resting(codepage, text)) ==
            match Meaning(t, codepage, it) {
              case None => NotDefined
              case Some(ws) => Next(Resting(PageAfter(codepage, it), text + ws))
            }
  {
    hide Step, Feed, ConvertCodepage, GroupValues;
    match it
    case Plain(c) =>
      FeedPlain(t, codepage, text, c);
    case DoubledQuote =>
      FeedDoubled(t, codepage, text, QUOTE);
    case DoubledSolidus =>
      FeedDoubled(t, codepage, text, SOLIDUS);
    case PageCharacter(c) =>
      FeedPageCharacter(t, codepage, text, c);
    case SelectPage(letter) =>
      FeedSelectPage(t, codepage, text, letter);
      assert text + [] == text;
    case ArbitraryByte(high, low) =>
      FeedArbitrary(t, codepage, text, high, low);
    case Extended(wide, groups) =>
      FeedExtended(t, codepage, text, wide, groups);
    case Ignored(letters) =>
      FeedIgnored(t, codepage, text, letters);
      assert text + [] == text;
  }

  // ----- whole strings -----

  lemma {:induction false} GroupsHaveNoNul(wide: bool, groups: seq<seq<Byte>>)
    requires AllGroups(wide, groups)
    ensures NoNul(Concat(groups))
  {
    if groups != [] {
      assert IsGroup(wide, groups[0]);
      GroupsHaveNoNul(wide, groups[1..]);
    }
  }

  lemma SpellingHasNoNul(it: Item)
    requires WellFormed(it)
    ensures NoNul(Spelling(it))
  {
    if it.Extended? { GroupsHaveNoNul(it.wide, it.groups); }
  }

  /** A quote ends the string when what follows does not start with another quote. */
  lemma ClosingQuote(t: CodePages, codepage: int, text: seq<Word>, tail: seq<Byte>)
    requires tail == [] || tail[0] != QUOTE
    ensures Scan(t, [QUOTE] + tail, Resting(codepage, text)) == Finished(text + [QUOTE], tail)
  {
    assert ([QUOTE] + tail)[1..] == tail;
  }

  /** A page character the selected page does not define stops the decoder right at it. */
  lemma UndefinedPageCharacter(t: CodePages, codepage: int, text: seq<Word>, c: Byte, rest: seq<Byte>)
    requires c != 0 && ConvertCodepage(t, codepage, SignedChar(c) + 0x80).None?
    ensures Scan(t, Spelling(PageCharacter(c)) + rest, Resting(codepage, text)) == Undefined([c] + rest)
  {
    var st := Resting(codepage, text);
    var s2 := st.(parseState := 0x6);
    var s3 := st.(parseState := 0x16);
    FeedOne(t, SOLIDUS, st);
    FeedThen(t, [SOLIDUS], LETTER_S, st, st.(parseState := 0x2));
    FeedThen(t, [SOLIDUS] + [LETTER_S], SOLIDUS, st, s2);
    var front := [SOLIDUS] + [LETTER_S] + [SOLIDUS];
    assert Spelling(PageCharacter(c)) + rest == front + ([c] + rest);
    ScanPrefix(t, front, [c] + rest, st);
  }

  lemma ScanItem(t: CodePages, codepage: int, text: seq<Word>, it: Item, after: seq<Byte>)
    requires WellFormed(it)
    ensures Scan(t, Spelling(it) + after, Resting(codepage, text)) ==
            match Meaning(t, codepage, it) {
              case None => Undefined([it.c] + after)
              case Some(ws) => Scan(t, after, Resting(PageAfter(codepage, it), text + ws))
            }
  {
    ItemIsDecoded(t, codepage, text, it);
    if Meaning(t, codepage, it).None? {
      UndefinedPageCharacter(t, codepage, text, it.c, after);
    } else {
      SpellingHasNoNul(it);
      ScanPrefix(t, Spelling(it), after, Resting(codepage, text));
    }
  }

  /** Decoding a list of well-formed items gives its item-by-item meaning and stops at the tail. */
  lemma {:induction false} GrammarIsDecoded(
      t: CodePages, codepage: int, text: seq<Word>, items: seq<Item>, tail: seq<Byte>)
    requires AllWellFormed(items)
    requires tail == [] || tail[0] != QUOTE
    ensures Scan(t, Spell(items) + [QUOTE] + tail, Resting(codepage, text))
            == Interpretation(t, codepage, text, items, tail)
    decreases items
  {
    hide Step, Scan, Spelling;
    if items == [] {
      ClosingQuote(t, codepage, text, tail);
      assert Spell(items) + [QUOTE] + tail == [QUOTE] + tail;
    } else {
      var it := items[0];
      var after := Spell(items[1..]) + [QUOTE] + tail;
      assert Spell(items) + [QUOTE] + tail == Spelling(it) + after;
      ScanItem(t, codepage, text, it, after);
      match Meaning(t, codepage, it)
      case None =>
        assert [it.c] + after == [it.c] + Spell(items[1..]) + [QUOTE] + tail;
      case Some(ws) =>
        GrammarIsDecoded(t, PageAfter(codepage, it), text + ws, items[1..], tail);
    }
  }
}
