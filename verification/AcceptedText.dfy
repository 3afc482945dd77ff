/** The converse of the directive grammar: which texts the decoder reads without leaving the states that
    well-formed text passes through. */
module AcceptedText {
  import opened CharacterCodes
  import opened CharacterDecoder
  import opened DirectiveGrammar
  import opened Options
  import opened OrderlyStates

  // ----- the grammar that is accepted -----

  /** The items of the grammar, and two spellings that pass unnoticed: a second S stands for P, and P may follow
      an ignored letter. */
  datatype Form =
    | Proper(it: Item)
    | PageBySecondS(letter: Byte)      // \SSA\ .. \SSI\ without \SSF\
    | OddlyIgnored(letters: seq<Byte>) // \NP\, \FP\, \SSN\ and \SSF\

  const PROPER_LETTERS: seq<seq<Byte>> := [[LETTER_N], [LETTER_F], [LETTER_P, LETTER_N], [LETTER_P, LETTER_F]]
  const ODD_LETTERS: seq<seq<Byte>> := [[LETTER_N, LETTER_P], [LETTER_F, LETTER_P],
                                        [LETTER_S, LETTER_S, LETTER_N], [LETTER_S, LETTER_S, LETTER_F]]

  predicate IsForm(f: Form) {
    match f
    case Proper(it) => WellFormed(it)
    case PageBySecondS(letter) => IsValidAlphabetDefinition(letter) && letter != LETTER_F
    case OddlyIgnored(letters) => letters in ODD_LETTERS
  }

  function SpellingOf(f: Form): (r: seq<Byte>)
    ensures r != []
  {
    match f
    case Proper(it) => Spelling(it)
    case PageBySecondS(letter) => [SOLIDUS, LETTER_S, LETTER_S, letter, SOLIDUS]
    case OddlyIgnored(letters) => [SOLIDUS] + letters + [SOLIDUS]
  }

  function MeaningOf(t: CodePages, codepage: int, f: Form): Option<seq<Word>>
    requires IsForm(f)
  {
    if f.Proper? then Meaning(t, codepage, f.it) else Some([])
  }

  function PageOf(codepage: int, f: Form): int {
    match f
    case Proper(it) => PageAfter(codepage, it)
    case PageBySecondS(letter) => letter - 0x40
    case OddlyIgnored(_) => codepage
  }

  function SpellAll(fs: seq<Form>): seq<Byte> {
    if fs == [] then [] else SpellingOf(fs[0]) + SpellAll(fs[1..])
  }

  /** Every form is well-formed, and every page character is one of the page selected before it. */
  predicate Defined(t: CodePages, codepage: int, fs: seq<Form>)
    decreases fs
  {
    fs == [] ||
    (IsForm(fs[0]) && MeaningOf(t, codepage, fs[0]).Some? && Defined(t, PageOf(codepage, fs[0]), fs[1..]))
  }

  /** The decoder after all of `fs`. */
  function DecodedAs(t: CodePages, codepage: int, text: seq<Word>, fs: seq<Form>): Decoder
    requires Defined(t, codepage, fs)
    decreases fs
  {
    if fs == [] then Resting(codepage, text)
    else DecodedAs(t, PageOf(codepage, fs[0]), text + MeaningOf(t, codepage, fs[0]).value, fs[1..])
  }

  // ----- partly read forms -----

  datatype Phase =
    | AtRest
    | AfterQuote
    | AfterFirstSolidus
    | AfterS
    | AfterSSolidus
    | AfterP(secondS: bool)
    | AfterPage(secondS: bool, letter: Byte)
    | AfterIgnored(letters: seq<Byte>)
    | AfterX
    | AfterXSolidus
    | AfterXDigit(high: Byte)
    | AfterX2(wide: bool)
    | InGroups(wide: bool, groups: seq<seq<Byte>>, digits: seq<Byte>)
    | Closing(wide: bool, groups: seq<seq<Byte>>, read: nat)

  predicate IsPhase(ph: Phase) {
    match ph
    case AfterPage(_, letter) => IsValidAlphabetDefinition(letter) && letter != LETTER_F
    case AfterIgnored(letters) => letters in PROPER_LETTERS || letters in ODD_LETTERS
    case AfterXDigit(high) => IsHexadecimal(high)
    case InGroups(wide, groups, digits) => AllGroups(wide, groups) && AllHexadecimal(digits) && |digits| < Width(wide)
    case Closing(wide, groups, read) => groups != [] && AllGroups(wide, groups) && 1 <= read <= 3
    case _ => true
  }

  function PageLetters(secondS: bool): seq<Byte> { if secondS then [LETTER_S, LETTER_S] else [LETTER_P] }

  /** What was read of the form. */
  function PhaseText(ph: Phase): seq<Byte>
    requires IsPhase(ph)
  {
    match ph
    case AtRest => []
    case AfterQuote => [QUOTE]
    case AfterFirstSolidus => [SOLIDUS]
    case AfterS => [SOLIDUS, LETTER_S]
    case AfterSSolidus => [SOLIDUS, LETTER_S, SOLIDUS]
    case AfterP(secondS) => [SOLIDUS] + PageLetters(secondS)
    case AfterPage(secondS, letter) => [SOLIDUS] + PageLetters(secondS) + [letter]
    case AfterIgnored(letters) => [SOLIDUS] + letters
    case AfterX => [SOLIDUS, LETTER_X]
    case AfterXSolidus => [SOLIDUS, LETTER_X, SOLIDUS]
    case AfterXDigit(high) => [SOLIDUS, LETTER_X, SOLIDUS, high]
    case AfterX2(wide) => [SOLIDUS, LETTER_X, if wide then DIGIT_4 else DIGIT_2]
    case InGroups(wide, groups, digits) => Opening(wide) + Concat(groups) + digits
    case Closing(wide, groups, read) => Opening(wide) + Concat(groups) + CLOSING[..read]
  }

  /** The decoder in that phase, `text` being what was decoded before the form. */
  function PhaseDecoder(ph: Phase, codepage: int, text: seq<Word>): Decoder
    requires IsPhase(ph)
  {
    var st := Resting(codepage, text);
    match ph
    case AtRest => st
    case AfterQuote => st.(parseState := 0x40)
    case AfterFirstSolidus => st.(parseState := 0x2)
    case AfterS => st.(parseState := 0x6)
    case AfterSSolidus => st.(parseState := 0x16)
    case AfterP(_) => st.(parseState := 0xA)
    case AfterPage(_, letter) => st.(parseState := 0x2A, codepage := letter - 0x40)
    case AfterIgnored(letters) => st.(parseState := if |letters| == 1 then 0x40_0002 else 0x40_000A)
    case AfterX => st.(parseState := 0x82)
    case AfterXSolidus => st.(parseState := 0x92)
    case AfterXDigit(high) => st.(parseState := 0x492, hex := HexToInt(high), hexCount := 1)
    case AfterX2(wide) => st.(parseState := if wide then 0x382 else 0x182)
    case InGroups(wide, groups, digits) =>
      InGroup(Resting(codepage, text + GroupValues(wide, groups)), wide, groups != [], digits)
    case Closing(wide, groups, read) =>
      Resting(codepage, text + GroupValues(wide, groups)).(parseState := ClosingState(wide, read))
  }

  datatype Progress = More(ph: Phase) | Done(form: Form) | Off

  /** One character more of a form; Off where no form goes on with it. */
  function Advance(t: CodePages, codepage: int, ph: Phase, c: Byte): Progress {
    match ph
    case AtRest =>
      if c == QUOTE then More(AfterQuote) else if c == SOLIDUS then More(AfterFirstSolidus) else Done(Proper(Plain(c)))
    case AfterQuote => if c == QUOTE then Done(Proper(DoubledQuote)) else Off
    case AfterFirstSolidus =>
      if c == SOLIDUS then Done(Proper(DoubledSolidus))
      else if c == LETTER_X then More(AfterX)
      else if c == LETTER_P then More(AfterP(false))
      else if c == LETTER_N || c == LETTER_F then More(AfterIgnored([c]))
      else if c == LETTER_S then More(AfterS)
      else Off
    case AfterS => if c == SOLIDUS then More(AfterSSolidus) else if c == LETTER_S then More(AfterP(true)) else Off
    case AfterSSolidus =>
      if ConvertCodepage(t, codepage, SignedChar(c) + 0x80).Some? then Done(Proper(PageCharacter(c))) else Off
    case AfterP(secondS) =>
      if c == LETTER_N || c == LETTER_F then More(AfterIgnored(PageLetters(secondS) + [c]))
      else if IsValidAlphabetDefinition(c) then More(AfterPage(secondS, c))
      else Off
    case AfterPage(secondS, letter) =>
      if c == SOLIDUS then Done(if secondS then PageBySecondS(letter) else Proper(SelectPage(letter))) else Off
    case AfterIgnored(letters) =>
      if c == SOLIDUS then Done(if letters in PROPER_LETTERS then Proper(Ignored(letters)) else OddlyIgnored(letters))
      else if c == LETTER_P && |letters| == 1 then More(AfterIgnored(letters + [LETTER_P]))
      else Off
    case AfterX =>
      if c == SOLIDUS then More(AfterXSolidus)
      else if c == DIGIT_2 || c == DIGIT_4 then More(AfterX2(c == DIGIT_4))
      else Off
    case AfterXSolidus => if IsHexadecimal(c) then More(AfterXDigit(c)) else Off
    case AfterXDigit(high) => if IsHexadecimal(c) then Done(Proper(ArbitraryByte(high, c))) else Off
    case AfterX2(wide) => if c == SOLIDUS then More(InGroups(wide, [], [])) else Off
    case InGroups(wide, groups, digits) =>
      if IsHexadecimal(c) then
        if |digits| + 1 < Width(wide) then More(InGroups(wide, groups, digits + [c]))
        else More(InGroups(wide, groups + [digits + [c]], []))
      else if c == SOLIDUS && digits == [] && groups != [] then More(Closing(wide, groups, 1))
      else Off
    case Closing(wide, groups, read) =>
      if read == 1 then (if c == LETTER_X then More(Closing(wide, groups, 2)) else Off)
      else if read == 2 then (if c == DIGIT_0 then More(Closing(wide, groups, 3)) else Off)
      else if c == SOLIDUS then Done(Proper(Extended(wide, groups)))
      else Off
  }

  // ----- the decoder makes the same progress -----

  /** What `Advance` promises of the decoder's turn. */
  predicate Matches(t: CodePages, codepage: int, text: seq<Word>, ph: Phase, c: Byte)
    requires IsPhase(ph)
  {
    var st := PhaseDecoder(ph, codepage, text);
    match Advance(t, codepage, ph, c)
    case More(ph') =>
      && IsPhase(ph') && PhaseText(ph') == PhaseText(ph) + [c]
      && Step(t, st, c) == Next(PhaseDecoder(ph', codepage, text))
    case Done(f) =>
      && IsForm(f) && SpellingOf(f) == PhaseText(ph) + [c] && MeaningOf(t, codepage, f).Some?
      && Step(t, st, c) == Next(Resting(PageOf(codepage, f), text + MeaningOf(t, codepage, f).value))
    case Off => !StaysOrderly(t, st, c)
  }

  // ----- every turn makes the progress the forms allow -----

  lemma MatchesAtRest(t: CodePages, codepage: int, text: seq<Word>, ph: Phase, c: Byte)
    requires c != 0 && (ph.AtRest? || ph.AfterQuote?)
    ensures Matches(t, codepage, text, ph, c)
  {
    hide OrderlyPair;
    if ph.AfterQuote? && c != QUOTE { AstrayAfterQuote(t, PhaseDecoder(ph, codepage, text), c); }
  }

  lemma MatchesAfterSolidus(t: CodePages, codepage: int, text: seq<Word>, c: Byte)
    requires c != 0
    ensures Matches(t, codepage, text, AfterFirstSolidus, c)
  {
    hide OrderlyPair;
    if c !in [SOLIDUS, LETTER_X, LETTER_P, LETTER_N, LETTER_F, LETTER_S] {
      AstrayAfterSolidus(t, PhaseDecoder(AfterFirstSolidus, codepage, text), c);
    }
  }

  lemma MatchesAfterS(t: CodePages, codepage: int, text: seq<Word>, ph: Phase, c: Byte)
    requires c != 0 && (ph.AfterS? || ph.AfterSSolidus?)
    ensures Matches(t, codepage, text, ph, c)
  {
    hide OrderlyPair, ConvertCodepage;
    if ph.AfterS? && c !in [SOLIDUS, LETTER_S] { AstrayAfterS(t, PhaseDecoder(ph, codepage, text), c); }
  }

  lemma LettersAfterPage(secondS: bool, c: Byte)
    requires c == LETTER_N || c == LETTER_F
    ensures var letters := PageLetters(secondS) + [c];
            && (letters in PROPER_LETTERS || letters in ODD_LETTERS) && |letters| != 1
            && [SOLIDUS] + letters == [SOLIDUS] + PageLetters(secondS) + [c]
  {
    assert [LETTER_S, LETTER_S] + [c] == [LETTER_S, LETTER_S, c];
    assert PROPER_LETTERS[2] == [LETTER_P] + [LETTER_N] && PROPER_LETTERS[3] == [LETTER_P] + [LETTER_F];
    assert ODD_LETTERS[2] == [LETTER_S, LETTER_S, LETTER_N] && ODD_LETTERS[3] == [LETTER_S, LETTER_S, LETTER_F];
  }

  lemma LettersThenP(letters: seq<Byte>)
    requires |letters| == 1 && (letters in PROPER_LETTERS || letters in ODD_LETTERS)
    ensures letters + [LETTER_P] in ODD_LETTERS
    ensures [SOLIDUS] + (letters + [LETTER_P]) == [SOLIDUS] + letters + [LETTER_P]
  {
    assert letters[0] == LETTER_N || letters[0] == LETTER_F;
    assert ODD_LETTERS[0] == [LETTER_N] + [LETTER_P] && ODD_LETTERS[1] == [LETTER_F] + [LETTER_P];
  }

  lemma MatchesAfterP(t: CodePages, codepage: int, text: seq<Word>, ph: Phase, c: Byte)
    requires IsPhase(ph) && c != 0 && ph.AfterP?
    ensures Matches(t, codepage, text, ph, c)
  {
    hide OrderlyPair;
    if c == LETTER_N || c == LETTER_F { LettersAfterPage(ph.secondS, c); }
    if c != LETTER_N && !IsValidAlphabetDefinition(c) { AstrayAfterP(t, PhaseDecoder(ph, codepage, text), c); }
  }

  lemma MatchesAfterPage(t: CodePages, codepage: int, text: seq<Word>, ph: Phase, c: Byte)
    requires IsPhase(ph) && c != 0 && ph.AfterPage?
    ensures Matches(t, codepage, text, ph, c)
  {
    hide OrderlyPair;
    assert text + [] == text;
    if c != SOLIDUS { AstrayAfterPage(t, PhaseDecoder(ph, codepage, text), c); }
  }

  lemma MatchesAfterIgnored(t: CodePages, codepage: int, text: seq<Word>, ph: Phase, c: Byte)
    requires IsPhase(ph) && c != 0 && ph.AfterIgnored?
    ensures Matches(t, codepage, text, ph, c)
  {
    hide OrderlyPair;
    assert text + [] == text;
    var st := PhaseDecoder(ph, codepage, text);
    if c != SOLIDUS {
      if |ph.letters| != 1 { AstrayAfterTwoIgnored(t, st, c); }
      else if c != LETTER_P { AstrayAfterIgnored(t, st, c); }
      else { LettersThenP(ph.letters); }
    }
  }

  lemma MatchesAfterX(t: CodePages, codepage: int, text: seq<Word>, ph: Phase, c: Byte)
    requires IsPhase(ph) && c != 0 && (ph.AfterX? || ph.AfterX2?)
    ensures Matches(t, codepage, text, ph, c)
  {
    hide OrderlyPair;
    var st := PhaseDecoder(ph, codepage, text);
    assert text + [] == text;
    if ph.AfterX? {
      if c !in [SOLIDUS, DIGIT_2, DIGIT_4] { AstrayAfterX(t, st, c); }
    } else if c != SOLIDUS {
      if ph.wide { AstrayAfterX4(t, st, c); } else { AstrayAfterX2(t, st, c); }
    }
  }

  lemma MatchesArbitrary(t: CodePages, codepage: int, text: seq<Word>, ph: Phase, c: Byte)
    requires IsPhase(ph) && c != 0 && (ph.AfterXSolidus? || ph.AfterXDigit?)
    ensures Matches(t, codepage, text, ph, c)
  {
    hide OrderlyPair, Step;
    var st := PhaseDecoder(ph, codepage, text);
    if IsHexadecimal(c) {
      ArbitraryDigits(t, PhaseDecoder(AfterXSolidus, codepage, text), if ph.AfterXDigit? then ph.high else c, c);
    } else if ph.AfterXSolidus? {
      AstrayAfterXSolidus(t, st, c);
    } else {
      AstrayAfterXDigit(t, st, c);
    }
  }

  lemma {:induction false} ConcatAppend(groups: seq<seq<Byte>>, g: seq<Byte>)
    ensures Concat(groups + [g]) == Concat(groups) + g
  {
    if groups == [] {
      assert [g][1..] == [] && groups + [g] == [g];
    } else {
      ConcatAppend(groups[1..], g);
      assert (groups + [g])[1..] == groups[1..] + [g];
    }
  }

  lemma {:induction false} GroupValuesAppend(wide: bool, groups: seq<seq<Byte>>, g: seq<Byte>)
    requires AllGroups(wide, groups) && IsGroup(wide, g)
    ensures AllGroups(wide, groups + [g])
    ensures GroupValues(wide, groups + [g]) == GroupValues(wide, groups) + [GroupValue(wide, g)]
    decreases groups
  {
    if groups == [] {
      assert [g][1..] == [] && groups + [g] == [g];
    } else {
      GroupValuesAppend(wide, groups[1..], g);
      assert (groups + [g])[1..] == groups[1..] + [g];
    }
  }

  lemma MatchesDigit(t: CodePages, codepage: int, text: seq<Word>, ph: Phase, c: Byte)
    requires IsPhase(ph) && c != 0 && ph.InGroups? && IsHexadecimal(c) && |ph.digits| + 1 < Width(ph.wide)
    ensures Matches(t, codepage, text, ph, c)
  {
    hide Step, GroupState, HexWord, GroupValues, Concat;
    var base := Resting(codepage, text + GroupValues(ph.wide, ph.groups));
    DigitInGroup(t, base, ph.wide, ph.groups != [], ph.digits, c);
  }

  lemma MatchesLastDigit(t: CodePages, codepage: int, text: seq<Word>, ph: Phase, c: Byte)
    requires IsPhase(ph) && c != 0 && ph.InGroups? && IsHexadecimal(c) && |ph.digits| + 1 == Width(ph.wide)
    ensures Matches(t, codepage, text, ph, c)
  {
    hide Step, GroupState, HexWord, GroupValues, Concat, GroupValue;
    var (wide, groups, g) := (ph.wide, ph.groups, ph.digits + [c]);
    var base := Resting(codepage, text + GroupValues(wide, groups));
    LastDigit(t, base, wide, groups != [], ph.digits, c);
    ConcatAppend(groups, g);
    GroupValuesAppend(wide, groups, g);
    assert text + GroupValues(wide, groups) + [GroupValue(wide, g)]
           == text + (GroupValues(wide, groups) + [GroupValue(wide, g)]);
    assert Opening(wide) + (Concat(groups) + g) + [] == Opening(wide) + Concat(groups) + ph.digits + [c];
  }

  lemma MatchesInGroups(t: CodePages, codepage: int, text: seq<Word>, ph: Phase, c: Byte)
    requires IsPhase(ph) && c != 0 && ph.InGroups? && !IsHexadecimal(c)
    ensures Matches(t, codepage, text, ph, c)
  {
    hide OrderlyPair, HexWord, GroupValues, Concat;
    var st := PhaseDecoder(ph, codepage, text);
    if c == SOLIDUS && ph.digits == [] && ph.groups != [] {
      BlockExpects(st.parseState, ph.wide, true, 0);
    } else {
      AstrayInGroup(t, st, ph.wide, ph.groups != [], |ph.digits|, c);
    }
  }

  lemma MatchesClosing(t: CodePages, codepage: int, text: seq<Word>, ph: Phase, c: Byte)
    requires IsPhase(ph) && c != 0 && ph.Closing?
    ensures Matches(t, codepage, text, ph, c)
  {
    hide OrderlyPair, GroupValues, Concat;
    var st := PhaseDecoder(ph, codepage, text);
    if c != (if ph.read == 1 then LETTER_X else if ph.read == 2 then DIGIT_0 else SOLIDUS) {
      AstrayWhenClosing(t, st, ph.wide, ph.read, c);
    } else {
      ClosingExpects(st.parseState, ph.wide, ph.read);
      assert CLOSING[..ph.read] + [c] == CLOSING[..ph.read + 1];
    }
  }

  lemma TurnMatches(t: CodePages, codepage: int, text: seq<Word>, ph: Phase, c: Byte)
    requires IsPhase(ph) && c != 0
    ensures Matches(t, codepage, text, ph, c)
  {
    hide Matches, IsPhase;
    match ph
    case AtRest => MatchesAtRest(t, codepage, text, ph, c);
    case AfterQuote => MatchesAtRest(t, codepage, text, ph, c);
    case AfterFirstSolidus => MatchesAfterSolidus(t, codepage, text, c);
    case AfterS => MatchesAfterS(t, codepage, text, ph, c);
    case AfterSSolidus => MatchesAfterS(t, codepage, text, ph, c);
    case AfterP(_) => MatchesAfterP(t, codepage, text, ph, c);
    case AfterPage(_, _) => MatchesAfterPage(t, codepage, text, ph, c);
    case AfterIgnored(_) => MatchesAfterIgnored(t, codepage, text, ph, c);
    case AfterX => MatchesAfterX(t, codepage, text, ph, c);
    case AfterX2(_) => MatchesAfterX(t, codepage, text, ph, c);
    case AfterXSolidus => MatchesArbitrary(t, codepage, text, ph, c);
    case AfterXDigit(_) => MatchesArbitrary(t, codepage, text, ph, c);
    case Closing(_, _, _) => MatchesClosing(t, codepage, text, ph, c);
    case InGroups(wide, _, digits) =>
      if !IsHexadecimal(c) { MatchesInGroups(t, codepage, text, ph, c); }
      else if |digits| + 1 < Width(wide) { MatchesDigit(t, codepage, text, ph, c); }
      else { DigitsFit(ph); MatchesLastDigit(t, codepage, text, ph, c); }
  }

  lemma DigitsFit(ph: Phase)
    requires IsPhase(ph) && ph.InGroups?
    ensures |ph.digits| < Width(ph.wide)
  {
  }

  // ----- orderly text is text of the grammar -----

  /** An orderly run from a phase to rest reads the rest of the form and more forms. */
  lemma {:induction false} Parse(t: CodePages, codepage: int, text: seq<Word>, ph: Phase, cs: seq<Byte>)
      returns (fs: seq<Form>)
    requires IsPhase(ph) && NoNul(cs)
    requires OrderlyRun(t, cs, PhaseDecoder(ph, codepage, text))
    requires Feed(t, cs, PhaseDecoder(ph, codepage, text)).Next?
    requires Feed(t, cs, PhaseDecoder(ph, codepage, text)).st.parseState == 0
    ensures Defined(t, codepage, fs) && SpellAll(fs) == PhaseText(ph) + cs
    ensures Feed(t, cs, PhaseDecoder(ph, codepage, text)) == Next(DecodedAs(t, codepage, text, fs))
    decreases |cs|
  {
    hide Step, Orderly, SpellingOf, PhaseText, IsForm, MeaningOf, PageOf, PhaseDecoder, IsPhase, Advance;
    if cs == [] {
      AtRestExactly(ph, codepage, text);
      fs := [];
    } else {
      var c := cs[0];
      TurnMatches(t, codepage, text, ph, c);
      RestIsPhase(codepage, text);
      match Advance(t, codepage, ph, c) {
        case More(ph') =>
          fs := Parse(t, codepage, text, ph', cs[1..]);
          assert PhaseText(ph) + [c] + cs[1..] == PhaseText(ph) + cs;
        case Done(f) =>
          var ws := MeaningOf(t, codepage, f).value;
          RestIsPhase(PageOf(codepage, f), text + ws);
          var rest := Parse(t, PageOf(codepage, f), text + ws, AtRest, cs[1..]);
          fs := [f] + rest;
          assert fs[1..] == rest;
          assert PhaseText(ph) + [c] + ([] + cs[1..]) == PhaseText(ph) + cs;
        case Off =>
      }
    }
  }

  lemma RestIsPhase(codepage: int, text: seq<Word>)
    ensures IsPhase(AtRest) && PhaseText(AtRest) == []
    ensures PhaseDecoder(AtRest, codepage, text) == Resting(codepage, text)
  {
  }

  /** Only between forms is `parse_state` 0. */
  lemma AtRestExactly(ph: Phase, codepage: int, text: seq<Word>)
    requires IsPhase(ph) && PhaseDecoder(ph, codepage, text).parseState == 0
    ensures ph.AtRest? && PhaseText(ph) == [] && PhaseDecoder(ph, codepage, text) == Resting(codepage, text)
  {
    var s := PhaseDecoder(ph, codepage, text).parseState;
    if ph.InGroups? { BlockExpects(s, ph.wide, ph.groups != [], |ph.digits|); }
    if ph.Closing? { ClosingExpects(ClosingState(ph.wide, ph.read), ph.wide, ph.read); }
  }

  // ----- text of the grammar is orderly -----

  /** Progress over all of `cs`, which may complete at most one form, at its end. */
  function AdvanceAll(t: CodePages, codepage: int, ph: Phase, cs: seq<Byte>): Progress
    decreases cs
  {
    if cs == [] then More(ph)
    else
      match Advance(t, codepage, ph, cs[0])
      case More(ph') => AdvanceAll(t, codepage, ph', cs[1..])
      case Done(f) => if |cs| == 1 then Done(f) else Off
      case Off => Off
  }

  lemma {:induction false} AdvanceFurther(t: CodePages, codepage: int, ph: Phase, a: seq<Byte>, b: seq<Byte>)
    requires AdvanceAll(t, codepage, ph, a).More?
    ensures AdvanceAll(t, codepage, ph, a + b) == AdvanceAll(t, codepage, AdvanceAll(t, codepage, ph, a).ph, b)
    decreases a
  {
    hide Advance;
    if a == [] {
      assert a + b == b;
    } else {
      assert (a + b)[1..] == a[1..] + b;
      AdvanceFurther(t, codepage, Advance(t, codepage, ph, a[0]).ph, a[1..], b);
    }
  }

  lemma AdvanceOne(t: CodePages, codepage: int, ph: Phase, c: Byte)
    ensures AdvanceAll(t, codepage, ph, [c]) == Advance(t, codepage, ph, c)
  {
    hide Advance;
    assert [c][1..] == [];
    match Advance(t, codepage, ph, c) {
      case More(ph') => assert AdvanceAll(t, codepage, ph', []) == More(ph');
      case _ =>
    }
  }

  lemma {:induction false} AdvanceDigits(
      t: CodePages, codepage: int, wide: bool, groups: seq<seq<Byte>>, ds: seq<Byte>, more: seq<Byte>)
    requires IsGroup(wide, ds + more) && more != []
    ensures AdvanceAll(t, codepage, InGroups(wide, groups, ds), more) == More(InGroups(wide, groups + [ds + more], []))
    decreases more
  {
    var c := more[0];
    assert (ds + more)[|ds|] == c;
    assert ds + [c] + more[1..] == ds + more;
    if |more| == 1 {
      assert more == [c];
      AdvanceOne(t, codepage, InGroups(wide, groups, ds), c);
    } else {
      AdvanceDigits(t, codepage, wide, groups, ds + [c], more[1..]);
    }
  }

  lemma {:induction false} AdvanceGroups(
      t: CodePages, codepage: int, wide: bool, groups: seq<seq<Byte>>, more: seq<seq<Byte>>)
    requires AllGroups(wide, more)
    ensures AdvanceAll(t, codepage, InGroups(wide, groups, []), Concat(more)) == More(InGroups(wide, groups + more, []))
    decreases more
  {
    if more == [] {
      assert groups + more == groups;
    } else {
      hide Advance, AdvanceAll;
      var g := more[0];
      assert [] + g == g && IsGroup(wide, g);
      AdvanceDigits(t, codepage, wide, groups, [], g);
      AdvanceFurther(t, codepage, InGroups(wide, groups, []), g, Concat(more[1..]));
      AdvanceGroups(t, codepage, wide, groups + [g], more[1..]);
      assert groups + [g] + more[1..] == groups + more;
    }
  }

  lemma AdvanceThrough(t: CodePages, codepage: int, ph: Phase, a: seq<Byte>, c: Byte, ph': Phase)
    requires AdvanceAll(t, codepage, ph, a) == More(ph')
    ensures AdvanceAll(t, codepage, ph, a + [c]) == Advance(t, codepage, ph', c)
  {
    hide Advance;
    AdvanceFurther(t, codepage, ph, a, [c]);
    AdvanceOne(t, codepage, ph', c);
  }

  lemma AdvanceThree(t: CodePages, codepage: int, ph: Phase, a: Byte, b: Byte, c: Byte, ph1: Phase, ph2: Phase)
    requires Advance(t, codepage, ph, a) == More(ph1) && Advance(t, codepage, ph1, b) == More(ph2)
    ensures AdvanceAll(t, codepage, ph, [a, b, c]) == Advance(t, codepage, ph2, c)
  {
    hide Advance, AdvanceAll;
    AdvanceOne(t, codepage, ph, a);
    AdvanceThrough(t, codepage, ph, [a], b, ph1);
    AdvanceThrough(t, codepage, ph, [a] + [b], c, ph2);
    assert [a] + [b] + [c] == [a, b, c];
  }

  lemma OpeningIsRead(t: CodePages, codepage: int, wide: bool)
    ensures AdvanceAll(t, codepage, AtRest, Opening(wide)) == More(InGroups(wide, [], []))
  {
    hide AdvanceAll;
    var digit := if wide then DIGIT_4 else DIGIT_2;
    AdvanceThree(t, codepage, AtRest, SOLIDUS, LETTER_X, digit, AfterFirstSolidus, AfterX);
    AdvanceThrough(t, codepage, AtRest, [SOLIDUS, LETTER_X, digit], SOLIDUS, AfterX2(wide));
    assert Opening(wide) == [SOLIDUS, LETTER_X, digit] + [SOLIDUS];
  }

  lemma ClosingIsRead(t: CodePages, codepage: int, wide: bool, groups: seq<seq<Byte>>)
    requires groups != []
    ensures AdvanceAll(t, codepage, InGroups(wide, groups, []), CLOSING) == Done(Proper(Extended(wide, groups)))
  {
    hide AdvanceAll;
    var front := [SOLIDUS, LETTER_X, DIGIT_0];
    AdvanceThree(t, codepage, InGroups(wide, groups, []), SOLIDUS, LETTER_X, DIGIT_0,
                 Closing(wide, groups, 1), Closing(wide, groups, 2));
    AdvanceThrough(t, codepage, InGroups(wide, groups, []), front, SOLIDUS, Closing(wide, groups, 3));
    assert CLOSING == front + [SOLIDUS];
  }

  lemma ExtendedIsRead(t: CodePages, codepage: int, wide: bool, groups: seq<seq<Byte>>)
    requires WellFormed(Extended(wide, groups))
    ensures AdvanceAll(t, codepage, AtRest, SpellingOf(Proper(Extended(wide, groups))))
            == Done(Proper(Extended(wide, groups)))
  {
    hide AdvanceAll, Advance, Opening, Concat;
    OpeningIsRead(t, codepage, wide);
    AdvanceGroups(t, codepage, wide, [], groups);
    assert [] + groups == groups;
    ClosingIsRead(t, codepage, wide, groups);
    AdvanceFurther(t, codepage, AtRest, Opening(wide), Concat(groups));
    AdvanceFurther(t, codepage, AtRest, Opening(wide) + Concat(groups), CLOSING);
  }

  lemma PairIsRead(t: CodePages, codepage: int, f: Form)
    requires IsForm(f) && f.Proper? && (f.it.Plain? || f.it.DoubledQuote? || f.it.DoubledSolidus?)
    ensures AdvanceAll(t, codepage, AtRest, SpellingOf(f)) == Done(f)
  {
    match f.it
    case Plain(c) => AdvanceOne(t, codepage, AtRest, c);
    case DoubledQuote =>
      AdvanceOne(t, codepage, AtRest, QUOTE);
      AdvanceThrough(t, codepage, AtRest, [QUOTE], QUOTE, AfterQuote);
      assert [QUOTE] + [QUOTE] == [QUOTE, QUOTE];
    case DoubledSolidus =>
      AdvanceOne(t, codepage, AtRest, SOLIDUS);
      AdvanceThrough(t, codepage, AtRest, [SOLIDUS], SOLIDUS, AfterFirstSolidus);
      assert [SOLIDUS] + [SOLIDUS] == [SOLIDUS, SOLIDUS];
  }

  lemma PageIsRead(t: CodePages, codepage: int, secondS: bool, letter: Byte)
    requires IsValidAlphabetDefinition(letter) && letter != LETTER_F
    ensures var f := if secondS then PageBySecondS(letter) else Proper(SelectPage(letter));
            AdvanceAll(t, codepage, AtRest, SpellingOf(f)) == Done(f)
  {
    var front := AfterPageLetters(t, codepage, secondS);
    AdvanceThrough(t, codepage, AtRest, front, letter, AfterP(secondS));
    AdvanceThrough(t, codepage, AtRest, front + [letter], SOLIDUS, AfterPage(secondS, letter));
    assert front + [letter] + [SOLIDUS]
           == SpellingOf(if secondS then PageBySecondS(letter) else Proper(SelectPage(letter)));
  }

  lemma AfterPageLetters(t: CodePages, codepage: int, secondS: bool) returns (front: seq<Byte>)
    ensures front == [SOLIDUS] + PageLetters(secondS)
    ensures AdvanceAll(t, codepage, AtRest, front) == More(AfterP(secondS))
  {
    front := [SOLIDUS] + PageLetters(secondS);
    AdvanceOne(t, codepage, AtRest, SOLIDUS);
    if secondS {
      AdvanceThree(t, codepage, AtRest, SOLIDUS, LETTER_S, LETTER_S, AfterFirstSolidus, AfterS);
    } else {
      AdvanceThrough(t, codepage, AtRest, [SOLIDUS], LETTER_P, AfterFirstSolidus);
    }
  }

  lemma IgnoredIsRead(t: CodePages, codepage: int, letters: seq<Byte>)
    requires letters in PROPER_LETTERS || letters in ODD_LETTERS
    ensures var f := if letters in PROPER_LETTERS then Proper(Ignored(letters)) else OddlyIgnored(letters);
            AdvanceAll(t, codepage, AtRest, SpellingOf(f)) == Done(f)
  {
    LettersAreRead(t, codepage, letters);
    AdvanceThrough(t, codepage, AtRest, [SOLIDUS] + letters, SOLIDUS, AfterIgnored(letters));
  }

  lemma LettersAreRead(t: CodePages, codepage: int, letters: seq<Byte>)
    requires letters in PROPER_LETTERS || letters in ODD_LETTERS
    ensures AdvanceAll(t, codepage, AtRest, [SOLIDUS] + letters) == More(AfterIgnored(letters))
  {
    hide AdvanceAll;
    var last := letters[|letters| - 1];
    AdvanceOne(t, codepage, AtRest, SOLIDUS);
    if |letters| == 1 {
      AdvanceThrough(t, codepage, AtRest, [SOLIDUS], last, AfterFirstSolidus);
      assert letters == [last];
    } else if last == LETTER_P {
      AdvanceThrough(t, codepage, AtRest, [SOLIDUS], letters[0], AfterFirstSolidus);
      AdvanceThrough(t, codepage, AtRest, [SOLIDUS] + [letters[0]], LETTER_P, AfterIgnored([letters[0]]));
      assert letters == [letters[0]] + [LETTER_P];
      assert [SOLIDUS] + letters == [SOLIDUS] + [letters[0]] + [LETTER_P];
    } else {
      var secondS := letters[0] == LETTER_S;
      var front := AfterPageLetters(t, codepage, secondS);
      AdvanceThrough(t, codepage, AtRest, front, last, AfterP(secondS));
      assert letters == PageLetters(secondS) + [last];
      assert [SOLIDUS] + letters == front + [last];
    }
  }

  lemma FormIsRead(t: CodePages, codepage: int, f: Form)
    requires IsForm(f) && MeaningOf(t, codepage, f).Some?
    ensures AdvanceAll(t, codepage, AtRest, SpellingOf(f)) == Done(f)
  {
    hide AdvanceAll, SpellingOf;
    match f
    case PageBySecondS(letter) => PageIsRead(t, codepage, true, letter);
    case OddlyIgnored(letters) => IgnoredIsRead(t, codepage, letters);
    case Proper(it) =>
      match it
      case SelectPage(letter) => PageIsRead(t, codepage, false, letter);
      case Ignored(letters) => IgnoredIsRead(t, codepage, letters);
      case Extended(wide, groups) => ExtendedIsRead(t, codepage, wide, groups);
      case PageCharacter(c) => PageCharacterIsRead(t, codepage, c);
      case ArbitraryByte(high, low) => ArbitraryIsRead(t, codepage, high, low);
      case _ => PairIsRead(t, codepage, f);
  }

  lemma PageCharacterIsRead(t: CodePages, codepage: int, c: Byte)
    requires c != 0 && ConvertCodepage(t, codepage, SignedChar(c) + 0x80).Some?
    ensures AdvanceAll(t, codepage, AtRest, SpellingOf(Proper(PageCharacter(c)))) == Done(Proper(PageCharacter(c)))
  {
    hide ConvertCodepage;
    AdvanceThree(t, codepage, AtRest, SOLIDUS, LETTER_S, SOLIDUS, AfterFirstSolidus, AfterS);
    AdvanceThrough(t, codepage, AtRest, [SOLIDUS, LETTER_S, SOLIDUS], c, AfterSSolidus);
    assert [SOLIDUS, LETTER_S, SOLIDUS] + [c] == [SOLIDUS, LETTER_S, SOLIDUS, c];
  }

  lemma ArbitraryIsRead(t: CodePages, codepage: int, high: Byte, low: Byte)
    requires IsHexadecimal(high) && IsHexadecimal(low)
    ensures var f := Proper(ArbitraryByte(high, low));
            AdvanceAll(t, codepage, AtRest, SpellingOf(f)) == Done(f)
  {
    AdvanceThree(t, codepage, AtRest, SOLIDUS, LETTER_X, SOLIDUS, AfterFirstSolidus, AfterX);
    var front := [SOLIDUS, LETTER_X, SOLIDUS];
    AdvanceThrough(t, codepage, AtRest, front, high, AfterXSolidus);
    AdvanceThrough(t, codepage, AtRest, front + [high], low, AfterXDigit(high));
    assert front + [high] + [low] == [SOLIDUS, LETTER_X, SOLIDUS, high, low];
  }

  lemma PhaseIsOrderly(ph: Phase, codepage: int, text: seq<Word>)
    requires IsPhase(ph)
    ensures Orderly(PhaseDecoder(ph, codepage, text))
  {
    if ph.InGroups? { hide HexWord, GroupValues; }
  }

  /** Where the forms go on, the decoder's run is orderly and arrives where they do. */
  lemma {:induction false} ProgressIsOrderly(t: CodePages, codepage: int, text: seq<Word>, ph: Phase, cs: seq<Byte>)
    requires IsPhase(ph) && NoNul(cs) && !AdvanceAll(t, codepage, ph, cs).Off?
    ensures OrderlyRun(t, cs, PhaseDecoder(ph, codepage, text))
    ensures match AdvanceAll(t, codepage, ph, cs) {
              case More(ph') =>
                IsPhase(ph') && Feed(t, cs, PhaseDecoder(ph, codepage, text)) == Next(PhaseDecoder(ph', codepage, text))
              case Done(f) =>
                && IsForm(f) && MeaningOf(t, codepage, f).Some?
                && Feed(t, cs, PhaseDecoder(ph, codepage, text))
                   == Next(Resting(PageOf(codepage, f), text + MeaningOf(t, codepage, f).value))
              case Off => false
            }
    decreases cs
  {
    hide Step, Orderly, PhaseDecoder, PhaseText, IsPhase, Advance, IsForm, MeaningOf, SpellingOf, PageOf;
    if cs != [] {
      TurnMatches(t, codepage, text, ph, cs[0]);
      match Advance(t, codepage, ph, cs[0])
      case More(ph') =>
        PhaseIsOrderly(ph', codepage, text);
        ProgressIsOrderly(t, codepage, text, ph', cs[1..]);
      case Done(f) =>
        var page, decoded := PageOf(codepage, f), text + MeaningOf(t, codepage, f).value;
        RestIsPhase(page, decoded);
        PhaseIsOrderly(AtRest, page, decoded);
        assert cs[1..] == [];
        assert Feed(t, cs[1..], Resting(page, decoded)) == Next(Resting(page, decoded));
        assert OrderlyRun(t, cs[1..], Resting(page, decoded));
      case Off =>
    }
  }

  lemma {:induction false} OrderlyRunAppend(t: CodePages, a: seq<Byte>, b: seq<Byte>, st: Decoder)
    requires Feed(t, a, st).Next? && OrderlyRun(t, a, st) && OrderlyRun(t, b, Feed(t, a, st).st)
    ensures OrderlyRun(t, a + b, st)
    decreases a
  {
    hide Step, Orderly;
    if a == [] {
      assert a + b == b;
    } else {
      assert (a + b)[1..] == a[1..] + b;
      OrderlyRunAppend(t, a[1..], b, Step(t, st, a[0]).st);
    }
  }

  lemma {:induction false} FormsAreOrderly(t: CodePages, codepage: int, text: seq<Word>, fs: seq<Form>)
    requires Defined(t, codepage, fs) && NoNul(SpellAll(fs))
    ensures OrderlyRun(t, SpellAll(fs), Resting(codepage, text))
    ensures Feed(t, SpellAll(fs), Resting(codepage, text)) == Next(DecodedAs(t, codepage, text, fs))
    decreases fs
  {
    hide Step, StaysOrderly, SpellingOf, IsForm, MeaningOf, PageOf, PhaseDecoder, PhaseText, AdvanceAll;
    if fs != [] {
      var f, others := fs[0], fs[1..];
      var st := Resting(PageOf(codepage, f), text + MeaningOf(t, codepage, f).value);
      assert forall i :: 0 <= i < |SpellingOf(f)| ==> SpellAll(fs)[i] == SpellingOf(f)[i];
      assert forall i :: 0 <= i < |SpellAll(others)| ==> SpellAll(fs)[|SpellingOf(f)| + i] == SpellAll(others)[i];
      FormIsRead(t, codepage, f);
      RestIsPhase(codepage, text);
      ProgressIsOrderly(t, codepage, text, AtRest, SpellingOf(f));
      FormsAreOrderly(t, st.codepage, st.builder, others);
      FeedAppend(t, SpellingOf(f), SpellAll(others), Resting(codepage, text));
      OrderlyRunAppend(t, SpellingOf(f), SpellAll(others), Resting(codepage, text));
    }
  }

  // ----- the converse of the grammar -----

  /** `cs` is read from rest to rest without leaving the orderly states. */
  predicate ReadOrderly(t: CodePages, codepage: int, text: seq<Word>, cs: seq<Byte>) {
    var st := Resting(codepage, text);
    OrderlyRun(t, cs, st) && Feed(t, cs, st).Next? && Feed(t, cs, st).st.parseState == 0
  }

  ghost predicate InGrammar(t: CodePages, codepage: int, cs: seq<Byte>) {
    exists fs: seq<Form> :: Defined(t, codepage, fs) && SpellAll(fs) == cs
  }

  /** A text without NUL is read from rest to rest through orderly states if and only if it spells forms. */
  lemma OrderlyExactlyInGrammar(t: CodePages, codepage: int, text: seq<Word>, cs: seq<Byte>)
    requires NoNul(cs)
    ensures ReadOrderly(t, codepage, text, cs) <==> InGrammar(t, codepage, cs)
  {
    hide Feed, OrderlyRun, SpellAll, Defined, PhaseText, PhaseDecoder, DecodedAs, IsPhase;
    RestIsPhase(codepage, text);
    if ReadOrderly(t, codepage, text, cs) {
      var fs := Parse(t, codepage, text, AtRest, cs);
      assert [] + cs == cs;
    }
    if InGrammar(t, codepage, cs) {
      var fs: seq<Form> :| Defined(t, codepage, fs) && SpellAll(fs) == cs;
      FormsAreOrderly(t, codepage, text, fs);
      RestsAfter(t, codepage, text, fs);
    }
  }

  /** Text of the grammar before a closing quote is decoded as its forms say, and decoding stops at the tail. */
  lemma AcceptedTextIsDecoded(t: CodePages, codepage: int, text: seq<Word>, fs: seq<Form>, tail: seq<Byte>)
    requires Defined(t, codepage, fs) && NoNul(SpellAll(fs)) && (tail == [] || tail[0] != QUOTE)
    ensures Scan(t, SpellAll(fs) + ([QUOTE] + tail), Resting(codepage, text))
            == Finished(DecodedAs(t, codepage, text, fs).builder + [QUOTE], tail)
  {
    FormsAreOrderly(t, codepage, text, fs);
    RestsAfter(t, codepage, text, fs);
    var st := DecodedAs(t, codepage, text, fs);
    hide Scan, Feed, SpellAll, Defined, DecodedAs, OrderlyRun;
    ScanPrefix(t, SpellAll(fs), [QUOTE] + tail, Resting(codepage, text));
    ClosingQuote(t, st.codepage, st.builder, tail);
  }

  lemma {:induction false} RestsAfter(t: CodePages, codepage: int, text: seq<Word>, fs: seq<Form>)
    requires Defined(t, codepage, fs)
    ensures var st := DecodedAs(t, codepage, text, fs); st == Resting(st.codepage, st.builder)
    decreases fs
  {
    hide IsForm, MeaningOf, PageOf;
    if fs != [] { RestsAfter(t, PageOf(codepage, fs[0]), text + MeaningOf(t, codepage, fs[0]).value, fs[1..]); }
  }

  // ----- one reading -----

  lemma {:induction false} NothingAfterDone(t: CodePages, codepage: int, ph: Phase, a: seq<Byte>, b: seq<Byte>)
    requires AdvanceAll(t, codepage, ph, a).Done? && b != []
    ensures AdvanceAll(t, codepage, ph, a + b).Off?
    decreases a
  {
    hide Advance;
    assert (a + b)[1..] == a[1..] + b;
    if |a| > 1 { NothingAfterDone(t, codepage, Advance(t, codepage, ph, a[0]).ph, a[1..], b); }
  }

  lemma SameFirstForm(t: CodePages, codepage: int, f: Form, g: Form, x: seq<Byte>, y: seq<Byte>)
    requires IsForm(f) && MeaningOf(t, codepage, f).Some? && IsForm(g) && MeaningOf(t, codepage, g).Some?
    requires SpellingOf(f) + x == SpellingOf(g) + y && |SpellingOf(f)| <= |SpellingOf(g)|
    ensures f == g && x == y
  {
    hide SpellingOf, AdvanceAll, IsForm, MeaningOf;
    var (a, b) := (SpellingOf(f), SpellingOf(g));
    FormIsRead(t, codepage, f);
    FormIsRead(t, codepage, g);
    assert b == (b + y)[..|b|] && a == (a + x)[..|a|];
    assert b == a + b[|a|..];
    if |a| < |b| {
      NothingAfterDone(t, codepage, AtRest, a, b[|a|..]);
      assert false;
    }
    assert x == (a + x)[|a|..] && y == (b + y)[|b|..];
  }

  /** A text spells forms in at most one way. */
  lemma {:induction false} ReadingIsUnique(t: CodePages, codepage: int, fs: seq<Form>, gs: seq<Form>)
    requires Defined(t, codepage, fs) && Defined(t, codepage, gs) && SpellAll(fs) == SpellAll(gs)
    ensures fs == gs
    decreases fs
  {
    hide SpellingOf, IsForm, MeaningOf, PageOf;
    if fs != [] && gs != [] {
      var f, g, x, y := fs[0], gs[0], SpellAll(fs[1..]), SpellAll(gs[1..]);
      if |SpellingOf(f)| <= |SpellingOf(g)| {
        SameFirstForm(t, codepage, f, g, x, y);
      } else {
        SameFirstForm(t, codepage, g, f, y, x);
      }
      ReadingIsUnique(t, PageOf(codepage, f), fs[1..], gs[1..]);
      assert fs == [f] + fs[1..] && gs == [g] + gs[1..];
    }
  }

  /** Flags that carry make the decoder read text from rest to rest that is in no way a directive: \PPX41 reads as
      the letter A, and leaves the orderly states at its second P. */
  lemma MalformedDirectiveIsAccepted(t: CodePages, codepage: int, text: seq<Word>)
    ensures Feed(t, [SOLIDUS, LETTER_P, LETTER_P, LETTER_X, DIGIT_4, 0x31], Resting(codepage, text))
            == Next(Resting(codepage, text + [0x41]))
    ensures !ReadOrderly(t, codepage, text, [SOLIDUS, LETTER_P, LETTER_P, LETTER_X, DIGIT_4, 0x31])
    ensures !InGrammar(t, codepage, [SOLIDUS, LETTER_P, LETTER_P, LETTER_X, DIGIT_4, 0x31])
  {
    var st := Resting(codepage, text);
    var carried := st.(parseState := FIRST_SOLIDUS + SECOND_SOLIDUS);
    var expecting := st.(parseState := 0x92);
    var front := [SOLIDUS, LETTER_P, LETTER_P];
    FeedOne(t, SOLIDUS, st);
    FeedThen(t, [SOLIDUS], LETTER_P, st, st.(parseState := 0x2));
    assert [SOLIDUS] + [LETTER_P] == [SOLIDUS, LETTER_P] && [SOLIDUS, LETTER_P] + [LETTER_P] == front;
    FeedThen(t, [SOLIDUS, LETTER_P], LETTER_P, st, st.(parseState := 0xA));
    FeedThen(t, front, LETTER_X, st, carried);
    ArbitraryDigits(t, expecting, DIGIT_4, 0x31);
    FeedThen(t, front + [LETTER_X], DIGIT_4, st, expecting);
    var mid := expecting.(parseState := 0x492, hex := 4, hexCount := 1);
    FeedThen(t, front + [LETTER_X] + [DIGIT_4], 0x31, st, mid);
    assert front + [LETTER_X] + [DIGIT_4] + [0x31] == [SOLIDUS, LETTER_P, LETTER_P, LETTER_X, DIGIT_4, 0x31];
    hide Step, ReadOrderly, InGrammar, Feed;
    LeavesAtSecondP(t, codepage, text, [LETTER_X, DIGIT_4, 0x31]);
    OrderlyExactlyInGrammar(t, codepage, text, front + [LETTER_X, DIGIT_4, 0x31]);
    assert front + [LETTER_X, DIGIT_4, 0x31] == [SOLIDUS, LETTER_P, LETTER_P, LETTER_X, DIGIT_4, 0x31];
  }

  lemma LeavesAtSecondP(t: CodePages, codepage: int, text: seq<Word>, after: seq<Byte>)
    ensures !ReadOrderly(t, codepage, text, [SOLIDUS, LETTER_P, LETTER_P] + after)
  {
    var st := Resting(codepage, text);
    var cs := [SOLIDUS, LETTER_P, LETTER_P] + after;
    var (s1, s2) := (st.(parseState := 0x2), st.(parseState := 0xA));
    assert Step(t, st, SOLIDUS) == Next(s1) && Step(t, s1, LETTER_P) == Next(s2);
    hide Step, StaysOrderly;
    if OrderlyRun(t, cs, st) {
      assert OrderlyRun(t, cs[1..], s1);
      assert OrderlyRun(t, cs[1..][1..], s2);
      assert StaysOrderly(t, s2, LETTER_P);
      AstrayAfterP(t, s2, LETTER_P);
    }
  }
}
