/** The one list of directives that an encoded string spells, described without the encoder. */
module EncodedForm {
  import opened CharacterCodes
  import opened CharacterDecoder
  import opened CharacterEncoder
  import opened DirectiveGrammar
  import opened DirectiveTexts
  import opened LiteralText

  /** What may be printed: printable ASCII, doubled quotes and solidi, and blocks of one width that hold nothing
      printable. */
  predicate IsPrinted(wide: bool, it: Item) {
    match it
    case Plain(c) => 0x20 <= c <= 0x7E && c as char !in "'\\"
    case DoubledQuote => true
    case DoubledSolidus => true
    case Extended(w, groups) =>
      && w == wide && groups != [] && AllGroups(w, groups)
      && forall i :: 0 <= i < |groups| && IsGroup(w, groups[i]) ==> !(0x20 <= GroupValue(w, groups[i]) <= 0x7E)
    case _ => false
  }

  predicate AllPrinted(wide: bool, items: seq<Item>) { forall i :: 0 <= i < |items| ==> IsPrinted(wide, items[i]) }

  predicate BlocksApart(items: seq<Item>) {
    forall i :: 0 <= i < |items| - 1 && items[i].Extended? ==> !items[i + 1].Extended?
  }

  /** Printed items that decode to `str`, in blocks of eight digits when some code point of `str` does not fit four. */
  predicate IsFormOf(t: CodePages, str: seq<Word>, items: seq<Item>) {
    && AllPrinted(Exceeds4(str), items) && BlocksApart(items)
    && Scan(t, Spell(items) + Ascii("'"), START) == Finished(Ascii("'") + str + Ascii("'"), [])
  }

  lemma PrintedIsWellFormed(wide: bool, items: seq<Item>)
    requires AllPrinted(wide, items)
    ensures AllWellFormed(items)
  {
    forall it | it in items ensures WellFormed(it) {
      var i :| 0 <= i < |items| && items[i] == it;
      assert IsPrinted(wide, items[i]);
    }
  }

  /** The code points of printed items. */
  function Denoted(wide: bool, items: seq<Item>): seq<Word>
    requires AllPrinted(wide, items)
  {
    if items == [] then []
    else
      (match items[0]
       case Plain(c) => [c]
       case DoubledQuote => [QUOTE]
       case DoubledSolidus => [SOLIDUS]
       case Extended(w, groups) => GroupValues(w, groups)) + Denoted(wide, items[1..])
  }

  lemma {:induction false} PrintedDenote(t: CodePages, text: seq<Word>, wide: bool, items: seq<Item>)
    requires AllPrinted(wide, items) && AllWellFormed(items)
    ensures Interpretation(t, 1, text, items, []) == Finished(text + Denoted(wide, items) + [QUOTE], [])
    decreases items
  {
    hide GroupValues, AllGroups;
    if items == [] {
      assert text + [] == text;
    } else {
      assert IsPrinted(wide, items[0]);
      var ws := Meaning(t, 1, items[0]).value;
      PrintedDenote(t, text + ws, wide, items[1..]);
      assert text + ws + Denoted(wide, items[1..]) == text + Denoted(wide, items);
    }
  }

  // ----- digits are determined by their number -----

  lemma SameDigit(c: Byte, d: Byte, x: nat, y: nat)
    requires IsHexadecimal(c) && IsHexadecimal(d) && 16 * x + HexToInt(c) == 16 * y + HexToInt(d)
    ensures c == d && x == y
  {
  }

  lemma SameEnds(a: seq<Byte>, b: seq<Byte>, n: nat)
    requires |a| == |b| == n + 1 && a[..n] == b[..n] && a[n] == b[n]
    ensures a == b
  {
    assert a == a[..n] + [a[n]] && b == b[..n] + [b[n]];
  }

  lemma {:induction false} SameNumeral(a: seq<Byte>, b: seq<Byte>)
    requires AllHexadecimal(a) && AllHexadecimal(b) && |a| == |b| && HexValue(a) == HexValue(b)
    ensures a == b
  {
    hide HexToInt, IsHexadecimal;
    if a != [] {
      var n := |a| - 1;
      SameDigit(a[n], b[n], HexValue(a[..n]), HexValue(b[..n]));
      SameNumeral(a[..n], b[..n]);
      SameEnds(a, b, n);
    }
  }

  lemma {:induction false} GroupsArePrinted(wide: bool, groups: seq<seq<Byte>>)
    requires AllGroups(wide, groups)
    ensures groups == Groups(wide, GroupValues(wide, groups))
    decreases groups
  {
    if groups != [] {
      hide HexValue;
      var v := GroupValue(wide, groups[0]);
      Pow16Table();
      NumeralIsGroup(wide, v);
      SameNumeral(groups[0], Numeral(wide, v));
      GroupsArePrinted(wide, groups[1..]);
      assert GroupValues(wide, groups)[1..] == GroupValues(wide, groups[1..]);
    }
  }

  // ----- uniqueness -----

  lemma {:induction false} RunEnds(run: seq<Word>, rest: seq<Word>)
    requires forall i :: 0 <= i < |run| ==> !WithinSpfRange(run[i])
    requires rest != [] ==> WithinSpfRange(rest[0])
    ensures RunLength(run + rest) == |run|
  {
    if run == [] {
      assert run + rest == rest;
    } else {
      assert (run + rest)[1..] == run[1..] + rest;
      RunEnds(run[1..], rest);
    }
  }

  lemma {:induction false} BlockIsRun(wide: bool, groups: seq<seq<Byte>>)
    requires IsPrinted(wide, Extended(wide, groups))
    ensures |GroupValues(wide, groups)| == |groups|
    ensures forall i :: 0 <= i < |groups| ==> !WithinSpfRange(GroupValues(wide, groups)[i])
  {
    var first := groups[0];
    assert IsGroup(wide, first);
    if |groups| > 1 {
      var rest := groups[1..];
      forall i | 0 <= i < |rest| && IsGroup(wide, rest[i]) ensures !(0x20 <= GroupValue(wide, rest[i]) <= 0x7E) {
        assert rest[i] == groups[i + 1];
      }
      BlockIsRun(wide, rest);
    }
  }

  predicate StartsWithBlock(items: seq<Item>) { items != [] && items[0].Extended? }

  lemma BlockIsChosen(wide: bool, items: seq<Item>)
    requires items != [] && items[0].Extended? && AllPrinted(wide, items) && !StartsWithBlock(items[1..])
    requires items[1..] == ItemsOf(wide, Denoted(wide, items[1..]))
    requires var tail := Denoted(wide, items[1..]);
             tail != [] ==> StartsWithBlock(items[1..]) == !WithinSpfRange(tail[0])
    ensures items == ItemsOf(wide, Denoted(wide, items))
    ensures Denoted(wide, items) != [] && !WithinSpfRange(Denoted(wide, items)[0])
  {
    hide GroupValues, Groups, WithinSpfRange;
    var groups := items[0].groups;
    var run, tail := GroupValues(wide, groups), Denoted(wide, items[1..]);
    assert IsPrinted(wide, items[0]);
    BlockIsRun(wide, groups);
    RunEnds(run, tail);
    GroupsArePrinted(wide, groups);
    var str := Denoted(wide, items);
    assert str == run + tail;
    assert str[0] == run[0] && str[..|run|] == run && str[|run|..] == tail;
    assert items == [items[0]] + items[1..];
  }

  lemma CharacterIsChosen(wide: bool, items: seq<Item>)
    requires items != [] && !items[0].Extended? && AllPrinted(wide, items)
    requires items[1..] == ItemsOf(wide, Denoted(wide, items[1..]))
    ensures items == ItemsOf(wide, Denoted(wide, items))
    ensures Denoted(wide, items) != [] && WithinSpfRange(Denoted(wide, items)[0])
  {
    hide GroupValues, Groups;
    assert IsPrinted(wide, items[0]);
    var str := Denoted(wide, items);
    assert str[1..] == Denoted(wide, items[1..]);
    assert PlainItem(str[0]) == items[0];
    hide IsPrinted, Denoted, PlainItem;
    assert items == [items[0]] + items[1..];
  }

  /** Printed items with their blocks apart are those the encoder chooses for what they denote. */
  lemma {:induction false} PrintedAreChosen(wide: bool, items: seq<Item>)
    requires AllPrinted(wide, items) && BlocksApart(items)
    ensures items == ItemsOf(wide, Denoted(wide, items))
    ensures Denoted(wide, items) != [] ==> StartsWithBlock(items) == !WithinSpfRange(Denoted(wide, items)[0])
    decreases items
  {
    if items != [] {
      hide Denoted, ItemsOf, IsPrinted, WithinSpfRange;
      var rest := items[1..];
      assert forall i :: 0 <= i < |rest| ==> rest[i] == items[i + 1];
      PrintedAreChosen(wide, rest);
      if items[0].Extended? { BlockIsChosen(wide, items); } else { CharacterIsChosen(wide, items); }
    }
  }

  // ----- existence -----

  lemma {:induction false} ChosenArePrinted(wide: bool, str: seq<Word>)
    requires Fits(wide, str)
    ensures AllPrinted(wide, ItemsOf(wide, str))
    decreases |str|
  {
    if str == [] {
    } else if WithinSpfRange(str[0]) {
      ChosenArePrinted(wide, str[1..]);
    } else {
      hide Groups;
      var n := RunLength(str);
      RunIsPrinted(wide, str[..n]);
      ChosenArePrinted(wide, str[n..]);
      hide IsPrinted;
    }
  }

  lemma RunIsPrinted(wide: bool, run: seq<Word>)
    requires Fits(wide, run) && run != [] && forall i :: 0 <= i < |run| ==> !WithinSpfRange(run[i])
    ensures IsPrinted(wide, Extended(wide, Groups(wide, run)))
  {
    hide Groups;
    GroupsDenoteRun(wide, run);
    ValuesAre(wide, Groups(wide, run));
  }

  lemma {:induction false} ValuesAre(wide: bool, groups: seq<seq<Byte>>)
    requires AllGroups(wide, groups)
    ensures |GroupValues(wide, groups)| == |groups|
    ensures forall i :: 0 <= i < |groups| && IsGroup(wide, groups[i]) ==>
              GroupValues(wide, groups)[i] == GroupValue(wide, groups[i])
  {
    if groups != [] { ValuesAre(wide, groups[1..]); }
  }

  /** Between its quotes an encoded string spells the one list of items of that form. */
  lemma ExactlyOneForm(t: CodePages, str: seq<Word>) returns (items: seq<Item>)
    ensures Encoded(str) == Ascii("'") + Spell(items) + Ascii("'")
    ensures forall other :: IsFormOf(t, str, other) <==> other == items
  {
    hide Scan, ItemsOf, Exceeds4, NeedsWide, Fits, AllPrinted, BlocksApart;
    items := ItemsOf(Exceeds4(str), str);
    assert Ascii("'") == [QUOTE];
    SameWidth(str);
    ChosenArePrinted(Exceeds4(str), str);
    ChosenAreApart(Exceeds4(str), str);
    DecodeEncoded(t, str, []);
    assert Encoded(str)[1..] + [] == Spell(items) + [QUOTE];
    forall other | IsFormOf(t, str, other) ensures other == items { FormIsChosen(t, str, other); }
  }

  lemma SameWidth(str: seq<Word>)
    ensures ItemsOf(NeedsWide(str), str) == ItemsOf(Exceeds4(str), str) && Fits(Exceeds4(str), str)
  {
  }

  lemma ChosenAreApart(wide: bool, str: seq<Word>)
    ensures BlocksApart(ItemsOf(wide, str))
  {
    BlocksAreMaximal(wide, str);
  }

  lemma FormIsChosen(t: CodePages, str: seq<Word>, items: seq<Item>)
    requires IsFormOf(t, str, items)
    ensures items == ItemsOf(Exceeds4(str), str)
  {
    hide Scan;
    var wide := Exceeds4(str);
    assert Ascii("'") == [QUOTE];
    PrintedIsWellFormed(wide, items);
    StringIsDecoded(t, items, []);
    assert Spell(items) + Ascii("'") + [] == Spell(items) + Ascii("'");
    PrintedDenote(t, Ascii("'"), wide, items);
    Unquote(str, Denoted(wide, items));
    PrintedAreChosen(wide, items);
  }
}
