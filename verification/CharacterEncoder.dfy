/** The string encoder of src/ifcparse/IfcCharacterDecoder.cpp and its round trip with the decoder. */
module CharacterEncoder {
  import opened CharacterCodes
  import opened CharacterDecoder
  import opened DirectiveGrammar

  predicate WithinSpfRange(ch: Word) { 0x20 <= ch <= 0x7E }

  /** \X4\ is used when some code point needs it, and for the empty string. */
  predicate NeedsWide(str: seq<Word>) { str == [] || exists i :: 0 <= i < |str| && str[i] > 0xFFFF }

  predicate Fits(wide: bool, str: seq<Word>) { wide || forall i :: 0 <= i < |str| ==> str[i] <= 0xFFFF }

  function Numeral(wide: bool, ch: Word): (r: seq<Byte>) { PadLeft(HexNumeral(ch), Width(wide)) }

  function PlainBytes(ch: Word): seq<Byte>
    requires WithinSpfRange(ch)
  {
    if ch == SOLIDUS || ch == QUOTE then [ch, ch] else [ch]
  }

  /** What one turn of the printing loop emits. */
  function Piece(wide: bool, ch: Word, inExtended: bool): seq<Byte> {
    if WithinSpfRange(ch) then (if inExtended then CLOSING + PlainBytes(ch) else PlainBytes(ch))
    else if inExtended then Numeral(wide, ch) else Opening(wide) + Numeral(wide, ch)
  }

  /** What remains to be printed for `str`, given whether a block is open. */
  function Print(wide: bool, str: seq<Word>, inExtended: bool): seq<Byte> {
    if str == [] then (if inExtended then CLOSING else [])
    else Piece(wide, str[0], inExtended) + Print(wide, str[1..], !WithinSpfRange(str[0]))
  }

  // ----- the items an encoded string consists of -----

  /** Length of the longest prefix outside the printable range. */
  function RunLength(str: seq<Word>): (n: nat)
    ensures n <= |str|
    ensures forall i :: 0 <= i < n ==> !WithinSpfRange(str[i])
    ensures n < |str| ==> WithinSpfRange(str[n])
  {
    if str == [] || WithinSpfRange(str[0]) then 0 else 1 + RunLength(str[1..])
  }

  function Groups(wide: bool, run: seq<Word>): (gs: seq<seq<Byte>>) {
    if run == [] then [] else [Numeral(wide, run[0])] + Groups(wide, run[1..])
  }

  function PlainItem(ch: Word): Item
    requires WithinSpfRange(ch)
  {
    if ch == QUOTE then DoubledQuote else if ch == SOLIDUS then DoubledSolidus else Plain(ch)
  }

  /** One item per printable character, one block per maximal run of the others. */
  function ItemsOf(wide: bool, str: seq<Word>): seq<Item>
    decreases |str|
  {
    if str == [] then []
    else if WithinSpfRange(str[0]) then [PlainItem(str[0])] + ItemsOf(wide, str[1..])
    else
      var n := RunLength(str);
      [Extended(wide, Groups(wide, str[..n]))] + ItemsOf(wide, str[n..])
  }

  function Encoded(str: seq<Word>): (r: seq<Byte>)
    ensures |r| >= 2 && r[0] == QUOTE
  {
    [QUOTE] + Spell(ItemsOf(NeedsWide(str), str)) + [QUOTE]
  }

  lemma {:induction false} PrintInsideRun(wide: bool, str: seq<Word>)
    ensures var n := RunLength(str);
            Print(wide, str, true) == Concat(Groups(wide, str[..n])) + (CLOSING + Print(wide, str[n..], false))
  {
    var n := RunLength(str);
    if n == 0 {
      assert str[n..] == str && str[..n] == [];
    } else {
      var rest := CLOSING + Print(wide, str[n..], false);
      PrintInsideRun(wide, str[1..]);
      ConcatGroups(wide, str[..n]);
      assert str[..n][1..] == str[1..n] == str[1..][..n - 1] && str[n..] == str[1..][n - 1..];
      Associative(Numeral(wide, str[0]), Concat(Groups(wide, str[1..n])), rest);
    }
  }

  lemma Associative(a: seq<Byte>, b: seq<Byte>, c: seq<Byte>)
    ensures a + (b + c) == (a + b) + c
  {
  }

  lemma ConcatGroups(wide: bool, run: seq<Word>)
    requires run != []
    ensures Concat(Groups(wide, run)) == Numeral(wide, run[0]) + Concat(Groups(wide, run[1..]))
  {
    assert Groups(wide, run)[1..] == Groups(wide, run[1..]);
  }

  lemma {:induction false} PrintSpellsItems(wide: bool, str: seq<Word>)
    ensures Print(wide, str, false) == Spell(ItemsOf(wide, str))
    decreases |str|
  {
    if str == [] {
    } else if WithinSpfRange(str[0]) {
      PrintSpellsItems(wide, str[1..]);
      assert ItemsOf(wide, str)[1..] == ItemsOf(wide, str[1..]);
      assert Spelling(PlainItem(str[0])) == PlainBytes(str[0]);
    } else {
      var n := RunLength(str);
      var first, others := Numeral(wide, str[0]), Concat(Groups(wide, str[1..n]));
      var rest := Print(wide, str[n..], false);
      PrintInsideRun(wide, str[1..]);
      ConcatGroups(wide, str[..n]);
      assert str[..n][1..] == str[1..n] == str[1..][..n - 1] && str[n..] == str[1..][n - 1..];
      PrintSpellsItems(wide, str[n..]);
      assert ItemsOf(wide, str)[1..] == ItemsOf(wide, str[n..]);
      BlockAndRest(Opening(wide), first, others, rest);
    }
  }

  lemma BlockAndRest(opening: seq<Byte>, first: seq<Byte>, others: seq<Byte>, rest: seq<Byte>)
    ensures (opening + first) + (others + (CLOSING + rest)) == (opening + (first + others) + CLOSING) + rest
  {
  }

  /** `std::max_element`; 0 for the empty string. */
  method MaxElement(str: seq<Word>) returns (largest: Word)
    ensures forall k :: 0 <= k < |str| ==> str[k] <= largest
    ensures if str == [] then largest == 0 else largest in str
  {
    largest := 0;
    for i := 0 to |str|
      invariant forall k :: 0 <= k < i ==> str[k] <= largest
      invariant if i == 0 then largest == 0 else largest in str[..i]
    {
      if i == 0 || str[i] > largest { largest := str[i]; }
    }
  }

  /** One turn of the printing loop. */
  method PrintCharacter(wide: bool, ch: Word, inExtended: bool, soFar: seq<Byte>) returns (out: seq<Byte>)
    ensures out == soFar + Piece(wide, ch, inExtended)
  {
    out := soFar;
    var within := WithinSpfRange(ch);
    if inExtended && within {
      out := out + CLOSING;
    } else if !inExtended && !within {
      out := out + Opening(wide);
    }
    if within {
      out := out + [ch];
      if ch == SOLIDUS || ch == QUOTE { out := out + [ch]; }
    } else {
      out := out + Numeral(wide, ch);
    }
  }

  /** `IfcCharacterEncoder::operator std::string`. */
  method Encode(str: seq<Word>) returns (out: seq<Byte>)
    ensures out == Encoded(str)
  {
    var largest := MaxElement(str);
    var wide := str == [] || largest > 0xFFFF;
    assert wide == NeedsWide(str);
    out := [QUOTE];
    var inExtended := false;
    for i := 0 to |str|
      invariant [QUOTE] + Print(wide, str, false) == out + Print(wide, str[i..], inExtended)
    {
      Associative(out, Piece(wide, str[i], inExtended), Print(wide, str[i + 1..], !WithinSpfRange(str[i])));
      assert str[i..][1..] == str[i + 1..];
      out := PrintCharacter(wide, str[i], inExtended, out);
      inExtended := !WithinSpfRange(str[i]);
    }
    if inExtended { out := out + CLOSING; }
    out := out + [QUOTE];
    PrintSpellsItems(wide, str);
  }

  // ----- round trip -----

  lemma NumeralIsGroup(wide: bool, ch: Word)
    requires wide || ch <= 0xFFFF
    ensures IsGroup(wide, Numeral(wide, ch)) && GroupValue(wide, Numeral(wide, ch)) == ch
  {
    Pow16Table();
    FixedWidthNumeral(ch, Width(wide));
  }

  lemma {:induction false} GroupsDenoteRun(wide: bool, run: seq<Word>)
    requires Fits(wide, run)
    ensures AllGroups(wide, Groups(wide, run))
    ensures GroupValues(wide, Groups(wide, run)) == run
    ensures |Groups(wide, run)| == |run|
  {
    if run != [] {
      NumeralIsGroup(wide, run[0]);
      GroupsDenoteRun(wide, run[1..]);
      assert Groups(wide, run)[1..] == Groups(wide, run[1..]);
    }
  }

  lemma {:induction false} ItemsAreWellFormed(wide: bool, str: seq<Word>)
    requires Fits(wide, str)
    ensures AllWellFormed(ItemsOf(wide, str))
    decreases |str|
  {
    if str == [] {
    } else if WithinSpfRange(str[0]) {
      ItemsAreWellFormed(wide, str[1..]);
    } else {
      var n := RunLength(str);
      GroupsDenoteRun(wide, str[..n]);
      ItemsAreWellFormed(wide, str[n..]);
    }
  }

  lemma {:induction false} ItemsDenoteString(
      t: CodePages, codepage: int, text: seq<Word>, wide: bool, str: seq<Word>, tail: seq<Byte>)
    requires Fits(wide, str) && AllWellFormed(ItemsOf(wide, str))
    ensures Interpretation(t, codepage, text, ItemsOf(wide, str), tail) == Finished(text + str + [QUOTE], tail)
    decreases |str|
  {
    hide Groups, GroupValues;
    var items := ItemsOf(wide, str);
    if str == [] {
      assert text + str == text;
    } else if WithinSpfRange(str[0]) {
      ItemsDenoteString(t, codepage, text + [str[0]], wide, str[1..], tail);
      assert items[1..] == ItemsOf(wide, str[1..]);
      assert text + [str[0]] + str[1..] == text + str;
    } else {
      var n := RunLength(str);
      GroupsDenoteRun(wide, str[..n]);
      ItemsDenoteString(t, codepage, text + str[..n], wide, str[n..], tail);
      assert items[1..] == ItemsOf(wide, str[n..]);
      assert text + str[..n] + str[n..] == text + str;
    }
  }

  /** Decoding what the encoder printed gives the string back between quotes and stops at the tail. */
  lemma DecodeEncoded(t: CodePages, str: seq<Word>, tail: seq<Byte>)
    requires tail == [] || tail[0] != QUOTE
    ensures Scan(t, Encoded(str)[1..] + tail, START) == Finished([QUOTE] + str + [QUOTE], tail)
  {
    var wide := NeedsWide(str);
    var items := ItemsOf(wide, str);
    ItemsAreWellFormed(wide, str);
    ItemsDenoteString(t, 1, [QUOTE], wide, str, tail);
    GrammarIsDecoded(t, 1, [QUOTE], items, tail);
    AfterOpeningQuote(Spell(items), tail);
  }

  lemma AfterOpeningQuote(body: seq<Byte>, tail: seq<Byte>)
    ensures ([QUOTE] + body + [QUOTE])[1..] + tail == body + [QUOTE] + tail
  {
  }

  /** Two strings never share an encoding, even when one encoding is a prefix of other text. */
  lemma EncodingIsInjective(a: seq<Word>, b: seq<Word>, tail: seq<Byte>)
    requires tail == [] || tail[0] != QUOTE
    requires Encoded(a) == Encoded(b) + tail
    ensures a == b && tail == []
  {
    hide Scan, Encoded;
    var t: CodePages := seq(16, _ => seq(256, _ => 0));
    DecodeEncoded(t, a, []);
    DecodeEncoded(t, b, tail);
    assert Encoded(a)[1..] + [] == Encoded(b)[1..] + tail;
    Unquote(a, b);
  }

  lemma Unquote(a: seq<Word>, b: seq<Word>)
    requires [QUOTE] + a + [QUOTE] == [QUOTE] + b + [QUOTE]
    ensures a == b
  {
    assert a == ([QUOTE] + a + [QUOTE])[1..|a| + 1];
    assert b == ([QUOTE] + b + [QUOTE])[1..|b| + 1];
  }

  // ----- shape of the output -----

  predicate AllPrintable(cs: seq<Byte>) { forall i :: 0 <= i < |cs| ==> 0x20 <= cs[i] <= 0x7E }

  lemma {:induction false} PrintIsPrintable(wide: bool, str: seq<Word>, inExtended: bool)
    requires Fits(wide, str)
    ensures AllPrintable(Print(wide, str, inExtended))
  {
    if str != [] {
      if !WithinSpfRange(str[0]) { NumeralIsGroup(wide, str[0]); }
      PrintIsPrintable(wide, str[1..], !WithinSpfRange(str[0]));
    }
  }

  /** Every byte the encoder prints is printable ASCII. */
  lemma EncodedIsPrintable(str: seq<Word>)
    ensures AllPrintable(Encoded(str))
  {
    PrintIsPrintable(NeedsWide(str), str, false);
    PrintSpellsItems(NeedsWide(str), str);
  }

  /** Quotes and solidi in `str`. */
  function Doubled(str: seq<Word>): nat {
    if str == [] then 0 else (if str[0] == 0x27 || str[0] == 0x5C then 1 else 0) + Doubled(str[1..])
  }

  /** Code points outside printable ASCII. */
  function Escaped(str: seq<Word>): nat {
    if str == [] then 0 else (if 0x20 <= str[0] <= 0x7E then 0 else 1) + Escaped(str[1..])
  }

  /** How many maximal runs of those start in `str`. */
  function Runs(str: seq<Word>, inRun: bool): nat {
    if str == [] then 0
    else if 0x20 <= str[0] <= 0x7E then Runs(str[1..], false)
    else (if inRun then 0 else 1) + Runs(str[1..], true)
  }

  lemma PieceLength(wide: bool, ch: Word, inExtended: bool)
    requires wide || ch <= 0xFFFF
    ensures |Piece(wide, ch, inExtended)| ==
            if WithinSpfRange(ch) then (if inExtended then 4 else 0) + 1 + Doubled([ch])
            else (if inExtended then 0 else 4) + Width(wide)
  {
    if WithinSpfRange(ch) {
      assert [ch][1..] == [];
    } else {
      NumeralIsGroup(wide, ch);
    }
  }

  lemma {:induction false} PrintLength(wide: bool, str: seq<Word>, inExtended: bool)
    requires Fits(wide, str)
    ensures |Print(wide, str, inExtended)|
            == (|str| - Escaped(str)) + Doubled(str) + (if wide then 8 * Escaped(str) else 4 * Escaped(str))
               + 8 * Runs(str, inExtended) + (if inExtended then 4 else 0)
  {
    if str != [] {
      PieceLength(wide, str[0], inExtended);
      assert Doubled(str) == Doubled([str[0]]) + Doubled(str[1..]) by { assert [str[0]][1..] == []; }
      PrintLength(wide, str[1..], !WithinSpfRange(str[0]));
    }
  }

  /** Some code point does not fit four hexadecimal digits. */
  predicate Exceeds4(str: seq<Word>) { exists i :: 0 <= i < |str| && str[i] >= 0x1_0000 }

  /** The exact output length: 8 characters around each run, and per escaped code point 8 digits when some code point
      does not fit four, else 4. */
  lemma EncodedLength(str: seq<Word>)
    ensures |Encoded(str)| == 2 + (|str| - Escaped(str)) + Doubled(str)
                              + (if Exceeds4(str) then 8 else 4) * Escaped(str) + 8 * Runs(str, false)
    ensures str == [] ==> Encoded(str) == [0x27, 0x27]
  {
    PrintLength(NeedsWide(str), str, false);
    PrintSpellsItems(NeedsWide(str), str);
  }

  /** Blocks are maximal: two blocks are never adjacent, and all have the same digit width. */
  lemma {:induction false} BlocksAreMaximal(wide: bool, str: seq<Word>)
    ensures var items := ItemsOf(wide, str);
            && (forall i :: 0 <= i < |items| && items[i].Extended? ==> items[i].wide == wide)
            && (forall i :: 0 <= i < |items| - 1 && items[i].Extended? ==> !items[i + 1].Extended?)
            && (items != [] ==> items[0].Extended? == !WithinSpfRange(str[0]))
    decreases |str|
  {
    if str == [] {
    } else if WithinSpfRange(str[0]) {
      BlocksAreMaximal(wide, str[1..]);
    } else {
      BlocksAreMaximal(wide, str[RunLength(str)..]);
    }
  }
}
