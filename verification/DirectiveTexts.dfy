/** The control directives as literals write them, and what reading them adds to the text. Every law starts between
    two directives, with `text` read under `codepage`, and ends there. */
module DirectiveTexts {
  import opened CharacterCodes
  import opened CharacterDecoder
  import opened DirectiveGrammar
  import opened LiteralText

  /** `''` and `\\` add one character, and a character that is neither adds itself, sign-extended. */
  lemma ReadsPlain(t: CodePages, codepage: int, text: seq<Word>, c: Byte)
    ensures Feed(t, Ascii("''"), Resting(codepage, text)) == Next(Resting(codepage, text + Ascii("'")))
    ensures Feed(t, Ascii("\\\\"), Resting(codepage, text)) == Next(Resting(codepage, text + Ascii("\\")))
    ensures c !in Ascii("'\\") ==>
              Feed(t, [c], Resting(codepage, text))
              == Next(Resting(codepage, text + [if c < 0x80 then c else 0x1_0000_0000 - (0x100 - c)]))
  {
    hide Feed;
    FeedDoubled(t, codepage, text, QUOTE);
    FeedDoubled(t, codepage, text, SOLIDUS);
    assert Ascii("''") == [QUOTE, QUOTE] && Ascii("'") == [QUOTE];
    assert Ascii("\\\\") == [SOLIDUS, SOLIDUS] && Ascii("\\") == [SOLIDUS];
    assert Ascii("'\\") == [QUOTE, SOLIDUS];
    if c != QUOTE && c != SOLIDUS { FeedPlain(t, codepage, text, c); }
  }

  /** `\S\c` adds the entry of the page in use half a table away from `c`; 0 marks a missing one. */
  lemma ReadsPageCharacter(t: CodePages, codepage: int, text: seq<Word>, c: Byte)
    requires 1 <= codepage <= 9
    ensures var w := t[codepage - 1][(c + 128) % 256];
            Feed(t, Ascii("\\S\\") + [c], Resting(codepage, text))
            == if w == 0 then NotDefined else Next(Resting(codepage, text + [w]))
  {
    hide Feed;
    FeedPageCharacter(t, codepage, text, c);
    assert Ascii("\\S\\") + [c] == [SOLIDUS, LETTER_S, SOLIDUS, c];
  }

  /** `\PA\` to `\PI\` select the pages 1 to 9, `\PF\` excepted. */
  lemma ReadsSelectPage(t: CodePages, codepage: int, text: seq<Word>, k: nat)
    requires k < 9 && "ABCDEFGHI"[k] != 'F'
    ensures Feed(t, Ascii("\\P" + ["ABCDEFGHI"[k]] + "\\"), Resting(codepage, text)) == Next(Resting(k + 1, text))
  {
    hide Feed;
    var letter: Byte := "ABCDEFGHI"[k] as int;
    FeedSelectPage(t, codepage, text, letter);
    assert Ascii("\\P" + ["ABCDEFGHI"[k]] + "\\") == [SOLIDUS, LETTER_P, letter, SOLIDUS];
  }

  /** `\N\`, `\F\`, `\PN\` and `\PF\` change nothing. */
  lemma ReadsIgnored(t: CodePages, codepage: int, text: seq<Word>, letters: string)
    requires letters in ["N", "F", "PN", "PF"]
    ensures IsAscii(letters)
    ensures Feed(t, Ascii("\\" + letters + "\\"), Resting(codepage, text)) == Next(Resting(codepage, text))
  {
    hide Feed;
    var ls: seq<Byte> := if letters == "N" then [LETTER_N] else if letters == "F" then [LETTER_F]
                         else if letters == "PN" then [LETTER_P, LETTER_N] else [LETTER_P, LETTER_F];
    assert Ascii("\\" + letters + "\\") == [SOLIDUS] + ls + [SOLIDUS];
    FeedIgnored(t, codepage, text, ls);
  }

  /** `\X\hh` adds 16 times the position of the first digit in the literal plus that of the second. */
  lemma ReadsArbitrary(t: CodePages, codepage: int, text: seq<Word>, high: nat, low: nat)
    requires high < 16 && low < 16
    ensures Feed(t, Ascii("\\X\\" + [HEXADECIMAL[high], HEXADECIMAL[low]]), Resting(codepage, text))
            == Next(Resting(codepage, text + [16 * high + low]))
  {
    hide Feed;
    HexadecimalTable(high);
    HexadecimalTable(low);
    var h, l: Byte := HEXADECIMAL[high] as int, HEXADECIMAL[low] as int;
    FeedArbitrary(t, codepage, text, h, l);
    assert Ascii("\\X\\" + [HEXADECIMAL[high], HEXADECIMAL[low]]) == [SOLIDUS, LETTER_X, SOLIDUS, h, l];
  }

  // ----- blocks -----

  /** Lists of four or eight digits. */
  predicate AreGroups(wide: bool, gs: seq<seq<nat>>) {
    forall i :: 0 <= i < |gs| ==> |gs[i]| == (if wide then 8 else 4) && AllBelow(gs[i], 16)
  }

  lemma {:induction false} NumberFits(ds: seq<nat>)
    requires AllBelow(ds, 16)
    ensures Number(16, ds) < Pow16(|ds|)
  {
    if ds != [] { NumberFits(ds[..|ds| - 1]); }
  }

  function Numbers(wide: bool, gs: seq<seq<nat>>): (r: seq<Word>)
    requires AreGroups(wide, gs)
    ensures |r| == |gs| && forall i :: 0 <= i < |gs| ==> r[i] == Number(16, gs[i])
  {
    if gs == [] then []
    else
      assert Number(16, gs[0]) < 0x1_0000_0000 by { NumberFits(gs[0]); Pow16Table(); }
      [Number(16, gs[0])] + Numbers(wide, gs[1..])
  }

  /** The digits of all groups, one group after the other. */
  function WrittenGroups(wide: bool, gs: seq<seq<nat>>): seq<Byte>
    requires AreGroups(wide, gs)
  {
    if gs == [] then []
    else
      assert IsAscii(HEXADECIMAL) && AllBelow(gs[0], |HEXADECIMAL|) by { HexadecimalTable(0); }
      Written(HEXADECIMAL, gs[0]) + WrittenGroups(wide, gs[1..])
  }

  lemma {:induction false} WrittenAreGroups(wide: bool, gs: seq<seq<nat>>) returns (groups: seq<seq<Byte>>)
    requires AreGroups(wide, gs)
    ensures AllGroups(wide, groups) && |groups| == |gs| && Concat(groups) == WrittenGroups(wide, gs)
    ensures GroupValues(wide, groups) == Numbers(wide, gs)
  {
    if gs == [] {
      groups := [];
    } else {
      hide HexValue, Number;
      WrittenDenotes(gs[0]);
      var rest := WrittenAreGroups(wide, gs[1..]);
      groups := [Written(HEXADECIMAL, gs[0])] + rest;
      assert groups[1..] == rest;
    }
  }

  /** A block adds one code point per group: the number its digits denote by their positions in the literal. */
  lemma ReadsExtended(t: CodePages, codepage: int, text: seq<Word>, wide: bool, gs: seq<seq<nat>>)
    requires gs != [] && AreGroups(wide, gs)
    ensures Feed(t, Ascii(if wide then "\\X4\\" else "\\X2\\") + WrittenGroups(wide, gs) + Ascii("\\X0\\"),
                 Resting(codepage, text))
            == Next(Resting(codepage, text + Numbers(wide, gs)))
  {
    hide Feed, WrittenGroups, Numbers;
    var groups := WrittenAreGroups(wide, gs);
    FeedExtended(t, codepage, text, wide, groups);
    assert Ascii(if wide then "\\X4\\" else "\\X2\\") == Opening(wide);
    assert Ascii("\\X0\\") == CLOSING;
  }

  // ----- the order of the digits -----

  /** `g` comes before `h` in byte order. */
  ghost predicate Precedes(g: seq<Byte>, h: seq<Byte>) { exists k :: FirstSmallerAt(g, h, k) }

  predicate FirstSmallerAt(g: seq<Byte>, h: seq<Byte>, k: int) {
    0 <= k < |g| && k < |h| && g[k] < h[k] && forall i :: 0 <= i < k ==> g[i] == h[i]
  }

  lemma {:induction false} ValueKeepsOrder(g: seq<Byte>, h: seq<Byte>)
    requires AllHexadecimal(g) && AllHexadecimal(h) && |g| == |h|
    ensures HexValue(g) < HexValue(h) <==> Precedes(g, h)
    decreases |g|
  {
    if g != [] {
      hide HexToInt, IsHexadecimal;
      var n := |g| - 1;
      ValueKeepsOrder(g[..n], h[..n]);
      ValueKeepsOrder(h[..n], g[..n]);
      PrecedesStep(g, h, n);
      SameOrOrdered(g[..n], h[..n]);
      DigitOrder(g[n], h[n]);
    }
  }

  lemma DigitOrder(c: Byte, d: Byte)
    requires IsHexadecimal(c) && IsHexadecimal(d)
    ensures HexToInt(c) < HexToInt(d) <==> c < d
  {
  }

  /** The last digits count when everything before them is the same. */
  lemma PrecedesStep(g: seq<Byte>, h: seq<Byte>, n: nat)
    requires |g| == |h| == n + 1
    ensures Precedes(g, h) <==> Precedes(g[..n], h[..n]) || (g[..n] == h[..n] && g[n] < h[n])
  {
    if k :| FirstSmallerAt(g, h, k) {
      if k < n { assert FirstSmallerAt(g[..n], h[..n], k); }
    }
    if k :| FirstSmallerAt(g[..n], h[..n], k) { assert FirstSmallerAt(g, h, k); }
    if g[..n] == h[..n] && g[n] < h[n] {
      assert forall i :: 0 <= i < n ==> g[i] == g[..n][i] && h[i] == h[..n][i];
      assert FirstSmallerAt(g, h, n);
    }
  }

  /** Exactly one of three: the same, before, or behind. */
  lemma {:induction false} SameOrOrdered(a: seq<Byte>, b: seq<Byte>)
    requires |a| == |b|
    ensures a == b || Precedes(a, b) || Precedes(b, a)
    ensures a == b ==> !Precedes(a, b) && !Precedes(b, a)
  {
    if a != [] {
      var n := |a| - 1;
      SameOrOrdered(a[..n], b[..n]);
      PrecedesStep(a, b, n);
      PrecedesStep(b, a, n);
      assert a == a[..n] + [a[n]] && b == b[..n] + [b[n]];
    }
  }

  /** Two groups of one width add code points in the byte order of the groups. */
  lemma GroupsKeepOrder(t: CodePages, codepage: int, text: seq<Word>, wide: bool, g: seq<Byte>, h: seq<Byte>)
      returns (v: Word, w: Word)
    requires IsGroup(wide, g) && IsGroup(wide, h)
    ensures Feed(t, Opening(wide) + g + CLOSING, Resting(codepage, text)) == Next(Resting(codepage, text + [v]))
    ensures Feed(t, Opening(wide) + h + CLOSING, Resting(codepage, text)) == Next(Resting(codepage, text + [w]))
    ensures v < w <==> Precedes(g, h)
  {
    hide Feed, Precedes;
    v, w := GroupValue(wide, g), GroupValue(wide, h);
    ReadsOneGroup(t, codepage, text, wide, g);
    ReadsOneGroup(t, codepage, text, wide, h);
    ValueKeepsOrder(g, h);
  }

  lemma ReadsOneGroup(t: CodePages, codepage: int, text: seq<Word>, wide: bool, g: seq<Byte>)
    requires IsGroup(wide, g)
    ensures Feed(t, Opening(wide) + g + CLOSING, Resting(codepage, text))
            == Next(Resting(codepage, text + [GroupValue(wide, g)]))
  {
    hide Feed;
    FeedExtended(t, codepage, text, wide, [g]);
    assert [g][1..] == [] && g + [] == g && Concat([g]) == g;
    assert GroupValues(wide, [g]) == [GroupValue(wide, g)];
  }

  /** So do two pairs of digits after `\X\`. */
  lemma PairsKeepOrder(t: CodePages, codepage: int, text: seq<Word>, g: seq<Byte>, h: seq<Byte>)
      returns (v: Word, w: Word)
    requires |g| == 2 && |h| == 2 && AllHexadecimal(g) && AllHexadecimal(h)
    ensures Feed(t, Ascii("\\X\\") + g, Resting(codepage, text)) == Next(Resting(codepage, text + [v]))
    ensures Feed(t, Ascii("\\X\\") + h, Resting(codepage, text)) == Next(Resting(codepage, text + [w]))
    ensures v < w <==> Precedes(g, h)
  {
    hide Feed, Precedes;
    v := ReadsPair(t, codepage, text, g);
    w := ReadsPair(t, codepage, text, h);
    ValueKeepsOrder(g, h);
  }

  lemma ReadsPair(t: CodePages, codepage: int, text: seq<Word>, g: seq<Byte>) returns (v: Word)
    requires |g| == 2 && AllHexadecimal(g)
    ensures v == HexValue(g)
    ensures Feed(t, Ascii("\\X\\") + g, Resting(codepage, text)) == Next(Resting(codepage, text + [v]))
  {
    hide Feed;
    FeedArbitrary(t, codepage, text, g[0], g[1]);
    assert Ascii("\\X\\") + g == [SOLIDUS, LETTER_X, SOLIDUS, g[0], g[1]];
    assert g[..1] == [g[0]] && [g[0]][..0] == [];
    v := 16 * HexToInt(g[0]) + HexToInt(g[1]);
  }

  // ----- whole strings -----

  /** A string read from its opening quote on starts on the first page. */
  lemma StringIsDecoded(t: CodePages, items: seq<Item>, tail: seq<Byte>)
    requires AllWellFormed(items) && (tail == [] || tail[0] !in Ascii("'"))
    ensures Scan(t, Spell(items) + Ascii("'") + tail, START) == Interpretation(t, 1, Ascii("'"), items, tail)
  {
    hide Scan;
    assert Ascii("'") == [QUOTE];
    GrammarIsDecoded(t, 1, [QUOTE], items, tail);
  }
}
