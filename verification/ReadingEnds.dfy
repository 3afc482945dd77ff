/** Where the decoder stops and what it rejects, on every text. */
module ReadingEnds {
  import opened CharacterCodes
  import opened CharacterDecoder
  import opened DecoderInvariants
  import opened LiteralText

  /** Between directives, behind a quote, or inside a directive. */
  predicate Rooted(s: bv32) { s == 0 || s == APOSTROPHE || Inside(s) }

  predicate Inside(s: bv32) { s & 0x2 != 0 }

  lemma KeywordsStayInside(s: bv32, c: Byte)
    requires Inside(s)
    ensures Keyword(s, c).Some? ==> Inside(Plus(s, Keyword(s, c).value))
    ensures Inside(Plus(s, PAGE)) && Inside(Plus(s, ALPHABET_DEFINITION)) && Inside(AfterSolidus(s))
  {
  }

  lemma DigitsStayInside(st: Decoder, v: Word)
    requires Inside(st.parseState)
    ensures Rooted(CountDigit(st, v).parseState) && CountDigit(st, v).parseState != APOSTROPHE
  {
  }

  /** Only a quote read between directives leads behind a quote. */
  lemma TurnStaysRooted(t: CodePages, st: Decoder, c: Byte)
    requires Rooted(st.parseState) && Step(t, st, c).Next?
    ensures Rooted(Step(t, st, c).st.parseState)
    ensures Step(t, st, c).st.parseState == APOSTROPHE ==> c in Ascii("'")
  {
    assert Ascii("'") == [QUOTE];
    if Inside(st.parseState) {
      KeywordsStayInside(st.parseState, c);
      if IsHexadecimal(c) { DigitsStayInside(st, ShiftIn(st.hex, c)); }
      hide Inside, Keyword, AfterSolidus, CountDigit, ShiftIn, Plus, ConvertCodepage;
    }
  }

  /** Reading that ends before a character other than NUL ends right behind a quote, and not at another one. */
  predicate EndsAtQuote(cs: seq<Byte>, rest: seq<Byte>) {
    && |rest| < |cs| && rest == cs[|cs| - |rest|..] && cs[|cs| - |rest| - 1] in Ascii("'")
    && (rest != [] && rest[0] != 0 ==> rest[0] !in Ascii("'"))
  }

  lemma {:induction false} EndOfReading(t: CodePages, cs: seq<Byte>, st: Decoder)
    requires Rooted(st.parseState)
    ensures match Scan(t, cs, st) {
              case Finished(_, rest) =>
                || rest == [] || rest[0] == 0 || EndsAtQuote(cs, rest)
                || (st.parseState == APOSTROPHE && rest == cs && rest[0] !in Ascii("'"))
              case _ => true
            }
  {
    hide Step, Rooted;
    if cs != [] && cs[0] != 0 {
      var turn := Step(t, st, cs[0]);
      if turn.Next? {
        TurnStaysRooted(t, st, cs[0]);
        EndOfReading(t, cs[1..], turn.st);
      } else if turn.Stop? {
        StopsBehindQuote(t, st, cs[0]);
      }
    }
  }

  lemma StopsBehindQuote(t: CodePages, st: Decoder, c: Byte)
    ensures Step(t, st, c).Stop? <==> st.parseState == APOSTROPHE && c !in Ascii("'")
  {
    assert Ascii("'") == [QUOTE];
    hide ConvertCodepage, CountDigit, ShiftIn, Widen;
  }

  /** A call of `get` ends at the end of the text, at a NUL, or right behind an unpaired quote; anything else raises an
      error. */
  lemma ReadingEndsBehindQuote(t: CodePages, cs: seq<Byte>)
    ensures match Scan(t, cs, START) {
              case Finished(_, rest) => rest == [] || rest[0] == 0 || EndsAtQuote(cs, rest)
              case _ => true
            }
  {
    EndOfReading(t, cs, START);
  }

  // ----- inside a directive, well-formed or not -----

  /** A page character is due: it is taken whatever it is. */
  predicate PageCharacterIsDue(s: bv32) { s & 0x4 != 0 && s & 0x10 != 0 }

  /** A hexadecimal digit is due. */
  predicate DigitIsDue(s: bv32) {
    || s & 0x1_D400 != 0 || (s & 0x80 != 0 && s & 0x10 != 0) || (s & 0x100 != 0 && s & 0x800 != 0)
    || (s & 0x200 != 0 && s & 0x2000 != 0)
  }

  /** The characters a state inside a directive goes on with, by the bits of `parse_state`. */
  predicate Takes(s: bv32, c: char) {
    || c in "XPS"
    || (c == '\\' && (s == 0x2 || s & 0x50_03A4 != 0))
    || (c == '0' && s & 0x8_0000 != 0)
    || (c in "24" && s & 0x80 != 0 && s & 0x10 == 0)
    || (c in "NF" && s & 0x80 == 0)
    || ('A' <= c <= 'I' && s & 0x8 != 0)
    || (('0' <= c <= '9' || 'A' <= c <= 'F') && DigitIsDue(s))
  }

  lemma SolidusMask(s: bv32)
    ensures ExpectsSolidus(s) <==> s & 0x50_03A4 != 0
  {
  }

  lemma DigitMask(s: bv32)
    ensures ExpectsHex(s) <==> DigitIsDue(s)
  {
    assert s & 0x1_D400 != 0
      <==> Has(s, Hex(1)) || Has(s, Hex(3)) || Has(s, Hex(5)) || Has(s, Hex(6)) || Has(s, Hex(7));
  }

  lemma KeywordMasks(s: bv32)
    requires Inside(s)
    ensures s != 0 && s != APOSTROPHE && ExpectsAfterSolidus(s)
    ensures ExpectsCharacter(s) <==> PageCharacterIsDue(s)
    ensures ExpectsEndExtended0(s) <==> s & 0x8_0000 != 0
    ensures ExpectsArbitrary2(s) <==> s & 0x80 != 0 && s & 0x10 == 0
    ensures ExpectsNOrF(s) <==> s & 0x80 == 0
    ensures ExpectsAlphabetDefinition(s) <==> s & 0x8 != 0
  {
  }

  lemma KeywordTaken(s: bv32, c: Byte)
    requires Inside(s) && !ExpectsCharacter(s)
    ensures Keyword(s, c).Some? || (c == LETTER_S && ExpectsAfterSolidus(s))
            <==> || c as char in "XPS" || (c as char == '0' && s & 0x8_0000 != 0)
                 || (c as char in "24" && s & 0x80 != 0 && s & 0x10 == 0) || (c as char in "NF" && s & 0x80 == 0)
  {
    KeywordMasks(s);
    hide ExpectsAfterSolidus, ExpectsEndExtended0, ExpectsArbitrary2, ExpectsNOrF, ExpectsEndExtendedX, Inside,
      ExpectsCharacter;
  }

  /** On every state inside a directive, reachable or not, exactly the other characters are rejected. */
  lemma RejectsExactly(t: CodePages, st: Decoder, c: Byte)
    requires Inside(st.parseState) && !PageCharacterIsDue(st.parseState)
    ensures Step(t, st, c) == Reject <==> !Takes(st.parseState, c as char)
  {
    var s := st.parseState;
    SolidusMask(s);
    DigitMask(s);
    KeywordMasks(s);
    KeywordTaken(s, c);
    hide CountDigit, ShiftIn, Widen, ConvertCodepage, AfterSolidus, Plus, ExpectsSolidus, ExpectsHex, DigitIsDue,
      ExpectsAfterSolidus, ExpectsAlphabetDefinition, Keyword, ExpectsCharacter, PageCharacterIsDue, Inside,
      EndsDirective;
  }

  lemma {:induction false} FeedStaysRooted(t: CodePages, cs: seq<Byte>, st: Decoder)
    requires Rooted(st.parseState) && Feed(t, cs, st).Next?
    ensures Rooted(Feed(t, cs, st).st.parseState)
  {
    hide Step, Rooted;
    if cs != [] {
      TurnStaysRooted(t, st, cs[0]);
      FeedStaysRooted(t, cs[1..], Step(t, st, cs[0]).st);
    }
  }

  lemma NeverRejectedOutside(t: CodePages, st: Decoder, c: Byte)
    requires Rooted(st.parseState) && (!Inside(st.parseState) || PageCharacterIsDue(st.parseState))
    ensures Step(t, st, c) != Reject
  {
    hide CountDigit, ShiftIn, Widen, ConvertCodepage;
    assert PageCharacterIsDue(st.parseState) <==> ExpectsCharacter(st.parseState);
    if !Inside(st.parseState) { assert st.parseState == 0 || st.parseState == APOSTROPHE; }
  }

  /** On every text, exactly these characters are rejected: inside a directive, where no page character is due, those
      that the state does not take. */
  lemma RejectedExactly(t: CodePages, cs: seq<Byte>, c: Byte, rest: seq<Byte>)
    requires NoNul(cs) && Feed(t, cs, START).Next? && c != 0
    ensures var s := Feed(t, cs, START).st.parseState;
            Scan(t, cs + [c] + rest, START) == Rejected([c] + rest)
            <==> Inside(s) && !PageCharacterIsDue(s) && !Takes(s, c as char)
  {
    hide Step, Feed, Takes, PageCharacterIsDue, Inside;
    var st := Feed(t, cs, START).st;
    assert cs + [c] + rest == cs + ([c] + rest);
    FeedStaysRooted(t, cs, START);
    ScanPrefix(t, cs, [c] + rest, START);
    ScanTurn(t, [c] + rest, st);
    assert ([c] + rest)[1..] == rest;
    if Step(t, st, c).Next? { GetNeverGainsText(t, rest, Step(t, st, c).st); }
    if Inside(st.parseState) && !PageCharacterIsDue(st.parseState) {
      RejectsExactly(t, st, c);
    } else {
      NeverRejectedOutside(t, st, c);
    }
  }
}
