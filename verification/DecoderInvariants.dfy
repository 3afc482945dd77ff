/** Properties of the decoding loop on every character stream, well-formed or not. */
module DecoderInvariants {
  import opened CharacterCodes
  import opened CharacterDecoder
  import opened CharacterEncoder
  import opened DirectiveGrammar
  import opened SpfStream

  // ----- `skip` moves in lockstep with `get` -----

  function Shadow(st: Decoder): Skipper { Skipper(st.parseState, st.hexCount) }

  lemma TurnsAgree(t: CodePages, st: Decoder, c: Byte)
    ensures SkipStep(Shadow(st), c) ==
            match Step(t, st, c) {
              case Next(st') => SkipNext(Shadow(st'))
              case Stop => SkipStop
              case Reject => SkipReject
              case NotDefined => SkipNext(Skipper(0, st.hexCount))
            }
  {
    hide Has, Plus, AfterSolidus, EndsDirective, Keyword, InvalidToken, ShiftIn, CountDigit, CountOnly, Widen,
      ExpectsCharacter, ExpectsSolidus, ExpectsAfterSolidus, ExpectsHex, ExpectsAlphabetDefinition, ConvertCodepage,
      IsValidAlphabetDefinition;
    if IsHexadecimal(c) { CountsAgree(st, ShiftIn(st.hex, c)); }
  }

  lemma CountsAgree(st: Decoder, v: Word)
    ensures CountOnly(Shadow(st)) == Shadow(CountDigit(st, v))
  {
    hide Has, Hex, Plus, AfterNumeral;
  }

  function SkipFeed(cs: seq<Byte>, sk: Skipper): SkipTurn {
    if cs == [] then SkipNext(sk)
    else
      match SkipStep(sk, cs[0])
      case SkipNext(sk') => SkipFeed(cs[1..], sk')
      case r => r
  }

  /** After every prefix that `get` reads without an error, both loops have the same state and digit count. */
  lemma {:induction false} StatesAgree(t: CodePages, cs: seq<Byte>, st: Decoder)
    requires Feed(t, cs, st).Next?
    ensures SkipFeed(cs, Shadow(st)) == SkipNext(Shadow(Feed(t, cs, st).st))
  {
    hide Step, SkipStep;
    if cs != [] {
      TurnsAgree(t, st, cs[0]);
      StatesAgree(t, cs[1..], Step(t, st, cs[0]).st);
    }
  }

  /** Unless `get` meets an undefined page character, `skip` ends the same way at the same place;
      if it does meet one, `skip` reads past it. */
  lemma {:induction false} OutcomesAgree(t: CodePages, cs: seq<Byte>, st: Decoder)
    ensures match Scan(t, cs, st) {
              case Finished(_, rest) => SkipScan(cs, Shadow(st)) == Skipped(rest)
              case Rejected(rest) => SkipScan(cs, Shadow(st)) == SkipRejected(rest)
              case Undefined(rest) => |SkipScan(cs, Shadow(st)).rest| < |rest|
            }
  {
    hide Step, SkipStep;
    if cs != [] && cs[0] != 0 {
      TurnsAgree(t, st, cs[0]);
      match Step(t, st, cs[0])
      case Next(st') => OutcomesAgree(t, cs[1..], st');
      case NotDefined => SkipNeverGainsText(cs[1..], Skipper(0, st.hexCount));
      case _ =>
    }
  }

  lemma {:induction false} SkipNeverGainsText(cs: seq<Byte>, sk: Skipper)
    ensures |SkipScan(cs, sk).rest| <= |cs|
  {
    hide SkipStep;
    if cs != [] && cs[0] != 0 {
      match SkipStep(sk, cs[0])
      case SkipNext(sk') => SkipNeverGainsText(cs[1..], sk');
      case _ =>
    }
  }

  lemma {:induction false} LaterIsFurther(buffer: seq<Byte>, p: nat, n: nat, m: nat)
    requires p <= |buffer| && n < m <= |Seen(buffer, p)|
    ensures OffsetAfter(buffer, p, n) < OffsetAfter(buffer, p, m)
    decreases m
  {
    hide Seen, OffsetAfter;
    OffsetStep(buffer, p, m - 1);
    if n < m - 1 { LaterIsFurther(buffer, p, n, m - 1); }
  }

  lemma {:induction false} GetNeverGainsText(t: CodePages, cs: seq<Byte>, st: Decoder)
    ensures |Scan(t, cs, st).rest| <= |cs|
  {
    hide Step;
    if cs != [] && cs[0] != 0 {
      match Step(t, st, cs[0])
      case Next(st') => GetNeverGainsText(t, cs[1..], st');
      case _ =>
    }
  }

  /** From every offset of every buffer, `skip` and `get` stop at the same offset and reject together; only where
      `get` stops at an undefined page character does `skip` stop behind it. */
  lemma SkipStopsWhereGetStops(t: CodePages, buffer: seq<Byte>, p: nat)
    requires p <= |buffer|
    ensures var cs := Seen(buffer, p);
            var got, skipped := Scan(t, cs, START), SkipScan(cs, Skipper(0, 0));
            && |got.rest| <= |cs| && |skipped.rest| <= |cs|
            && (if got.Undefined? then StopOffset(buffer, p, got.rest) < StopOffset(buffer, p, skipped.rest)
                else StopOffset(buffer, p, got.rest) == StopOffset(buffer, p, skipped.rest)
                     && (got.Rejected? <==> skipped.SkipRejected?))
  {
    hide Scan, SkipScan, Seen, OffsetAfter;
    var cs := Seen(buffer, p);
    var got, skipped := Scan(t, cs, START), SkipScan(cs, Skipper(0, 0));
    OutcomesAgree(t, cs, START);
    GetNeverGainsText(t, cs, START);
    SkipNeverGainsText(cs, Skipper(0, 0));
    if got.Undefined? { LaterIsFurther(buffer, p, |cs| - |got.rest|, |cs| - |skipped.rest|); }
  }

  // ----- the hexadecimal accumulator -----

  /** `hex` holds exactly the numeral of the pending digits. */
  predicate Pending(st: Decoder, ds: seq<Byte>) {
    |ds| == st.hexCount && AllHexadecimal(ds) && st.hex == HexWord(ds)
  }

  /** The pending digits after a turn from `st` to `st'` on `c`. */
  function NextPending(st: Decoder, st': Decoder, ds: seq<Byte>, c: Byte): seq<Byte> {
    if st'.hexCount == 0 then [] else if st'.hexCount == st.hexCount then ds else ds + [c]
  }

  /** The turn on a digit of a numeral pushes the numeral just read, or keeps all of it pending. */
  lemma DigitTurn(st: Decoder, ds: seq<Byte>, c: Byte)
    requires Pending(st, ds) && IsHexadecimal(c)
    ensures AllHexadecimal(ds + [c])
    ensures var st' := CountDigit(st, ShiftIn(st.hex, c));
            if st'.hexCount == 0 then st'.builder == st.builder + [HexWord(ds + [c])] && st'.hex == 0
            else st'.builder == st.builder && Pending(st', ds + [c])
  {
    hide Has, Hex, Plus, AfterNumeral;
    ShiftAppendsDigit(ds, c);
  }

  lemma TurnKeepsPending(t: CodePages, st: Decoder, ds: seq<Byte>, c: Byte)
    requires Pending(st, ds) && Step(t, st, c).Next?
    ensures Pending(Step(t, st, c).st, NextPending(st, Step(t, st, c).st, ds, c))
  {
    hide Has, Hex, Plus, AfterSolidus, AfterNumeral, ShiftIn, CountDigit;
    if IsHexadecimal(c) {
      DigitTurn(st, ds, c);
      CountNeverKeeps(st, c);
    }
    assert HexWord([]) == 0;
  }

  lemma CountNeverKeeps(st: Decoder, c: Byte)
    requires IsHexadecimal(c)
    ensures var st' := CountDigit(st, ShiftIn(st.hex, c));
            st'.hexCount == 0 || st'.hexCount == st.hexCount + 1
  {
    hide Has, Hex, Plus, AfterNumeral;
  }

  /** The pending digits after a whole prefix. */
  function DigitsAfter(t: CodePages, cs: seq<Byte>, st: Decoder, ds: seq<Byte>): seq<Byte> {
    if cs == [] then ds
    else
      match Step(t, st, cs[0])
      case Next(st') => DigitsAfter(t, cs[1..], st', NextPending(st, st', ds, cs[0]))
      case _ => ds
  }

  lemma {:induction false} PrefixKeepsPending(t: CodePages, cs: seq<Byte>, st: Decoder, ds: seq<Byte>)
    requires Pending(st, ds) && Feed(t, cs, st).Next?
    ensures Pending(Feed(t, cs, st).st, DigitsAfter(t, cs, st, ds))
  {
    hide Step, HexWord;
    if cs != [] {
      var st' := Step(t, st, cs[0]).st;
      TurnKeepsPending(t, st, ds, cs[0]);
      PrefixKeepsPending(t, cs[1..], st', NextPending(st, st', ds, cs[0]));
    }
  }

  /** At every loop head of every run at most seven digits are pending and `hex` is below 16^hex_count. */
  lemma AccumulatorIsBounded(t: CodePages, cs: seq<Byte>)
    requires Feed(t, cs, START).Next?
    ensures var st := Feed(t, cs, START).st;
            st.hexCount <= 7 && st.hex < Pow16(st.hexCount)
  {
    assert HexWord([]) == 0;
    PrefixKeepsPending(t, cs, START, []);
  }

  // ----- line breaks -----

  /** A printed string broken over lines anywhere after its opening quote decodes all the same. */
  lemma FoldedStringIsDecoded(t: CodePages, buffer: seq<Byte>, str: seq<Word>, tail: seq<Byte>)
    requires buffer != [] && buffer[0] == QUOTE
    requires Visible(buffer[1..]) == Encoded(str)[1..] + tail
    requires tail == [] || tail[0] != QUOTE
    ensures var start := SkipBreaks(buffer, 1);
            Scan(t, Seen(buffer, start), START) == Finished([QUOTE] + str + [QUOTE], tail)
  {
    DecodeEncoded(t, str, tail);
  }
}
