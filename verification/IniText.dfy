/** The lines of an INI text as literals write them: what each does when loaded, and how a store is printed. */
module IniText {
  import opened StringTools
  import opened StringOrder
  import opened Stripping
  import opened IniFile
  import opened IniRoundTrip
  import opened Options

  // ----- loading one line, with white space around it -----

  /** A line of white space around `text`. */
  predicate IsPadded(left: string, text: string, right: string) {
    && IsWhite(left) && IsWhite(right) && IsLine(left + text + right)
    && (text != "" ==> text[0] !in WHITE_SPACE && text[|text| - 1] !in WHITE_SPACE)
  }

  lemma PaddedLine(st: Loader, left: string, text: string, right: string)
    requires st.Valid() && IsPadded(left, text, right)
    ensures ProcessLine(st, left + text + right) == StrippedLine(st, text)
  {
    hide StrippedLine;
    TextOfLine(left + text + right);
    TrimOfPadded(left, text, right);
  }

  /** A blank line and a comment change nothing, a pending continuation included. */
  lemma CommentIsIgnored(st: Loader, left: string, text: string, right: string)
    requires st.Valid() && IsPadded(left, text, right) && (text != "" ==> text[0] == '#')
    ensures ProcessLine(st, left + text + right) == Some(st)
  {
    PaddedLine(st, left, text, right);
  }

  /** A name in brackets enters its section, which is new and empty unless it is there. */
  lemma HeaderIsEntered(st: Loader, left: string, name: string, right: string)
    requires st.Valid() && IsPadded(left, "[" + name + "]", right)
    ensures ProcessLine(st, left + ("[" + name + "]") + right)
            == Some(st.(sections := if name in st.sections then st.sections else st.sections[name := map[]],
                        current := name))
  {
    PaddedLine(st, left, "[" + name + "]", right);
    assert ("[" + name + "]")[1..|"[" + name + "]"| - 1] == name;
  }

  /** What a line of an entry of its own starts and ends with: it is no comment, no header and not continued. */
  predicate IsEntryLine(first: char, last: char) {
    first != '#' && last != '\\' && !(first == '[' && last == ']')
  }

  /** The two sides of the first equals sign, stripped, become an entry of the section in use, unless that section has
      the key already. */
  lemma EntryIsAdded(st: Loader, left: string, key: string, a: string, b: string, value: string, right: string)
    requires st.Valid() && !st.continued && IsPadded(left, key + a + "=" + (b + value), right)
    requires IsWhite(a) && IsWhite(b) && key != "" && value != "" && '=' !in key
    requires key[|key| - 1] !in WHITE_SPACE && value[0] !in WHITE_SPACE
    requires IsEntryLine(key[0], value[|value| - 1])
    ensures ProcessLine(st, left + (key + a + "=" + (b + value)) + right)
            == Some(st.(sections := st.sections[st.current :=
                          if key in st.sections[st.current] then st.sections[st.current]
                          else st.sections[st.current][key := value]]))
  {
    var text := key + a + "=" + (b + value);
    assert text[0] == key[0] && text[|text| - 1] == value[|value| - 1];
    assert key[0] !in WHITE_SPACE && value[|value| - 1] !in WHITE_SPACE;
    hide ProcessLine, StrippedLine, ParseEntry, IsPadded;
    PaddedLine(st, left, text, right);
    EntryParts(key, a, b, value);
    PlainEntry(st, text, key, value);
  }

  lemma PlainEntry(st: Loader, text: string, key: string, value: string)
    requires st.Valid() && !st.continued && text != "" && ParseEntry(text) == Entry(key, value)
    requires IsEntryLine(text[0], text[|text| - 1])
    ensures StrippedLine(st, text) == Some(st.(sections := st.sections[st.current :=
                                        if key in st.sections[st.current] then st.sections[st.current]
                                        else st.sections[st.current][key := value]]))
  {
    hide ParseEntry;
    assert st.entry + text == text;
  }

  lemma EntryParts(key: string, a: string, b: string, value: string)
    requires IsWhite(a) && IsWhite(b) && key != "" && value != "" && '=' !in key
    requires key[0] !in WHITE_SPACE && key[|key| - 1] !in WHITE_SPACE
    requires value[0] !in WHITE_SPACE && value[|value| - 1] !in WHITE_SPACE
    ensures ParseEntry(key + a + "=" + (b + value)) == Entry(key, value)
  {
    hide Trim, HasText, FirstOf, IsSpace;
    NoEqualsInPadding(key, a);
    KeyAndValue(key + a, b + value);
    TrimOfPadded("", key, a);
    TrimOfPadded(b, value, "");
    assert "" + key + a == key + a && b + value + "" == b + value;
    WhiteSpace(key[0]);
    WhiteSpace(value[0]);
    assert !IsSpace((key + a)[0]) && !IsSpace((b + value)[|b|]);
    VisibleIsText(key + a, 0);
    VisibleIsText(b + value, |b|);
  }

  lemma VisibleIsText(s: string, i: nat)
    requires i < |s| && !IsSpace(s[i])
    ensures HasText(s)
  {
  }

  lemma NoEqualsInPadding(key: string, a: string)
    requires IsWhite(a) && '=' !in key
    ensures Free(key + a, "=")
  {
    forall i | 0 <= i < |key + a| ensures (key + a)[i] !in "=" {
      if i >= |key| {
        assert a[i - |key|] in WHITE_SPACE;
        hide IsSpace;
        EqualsIsVisible();
      } else {
        assert key[i] in key;
      }
    }
  }

  lemma EqualsIsVisible()
    ensures '=' !in WHITE_SPACE
  {
  }

  // ----- printing -----

  /** What is printed for the entries of one section. */
  function EntriesText(m: Section): string { Unlines(EntryLines(m, SortedKeys(m.Keys))) }

  lemma {:induction false} EntryLinesAppend(m: Section, m': Section, keys: seq<string>, k: string)
    requires KeysIn(m, keys) && k in m' && forall x :: x in m && x != k ==> x in m' && m'[x] == m[x]
    requires k !in keys
    ensures KeysIn(m', keys + [k])
    ensures EntryLines(m', keys + [k]) == EntryLines(m, keys) + [k + "=" + m'[k]]
    decreases keys
  {
    if keys == [] {
      assert [] + [k] == [k] && [k][1..] == [];
      assert EntryLines(m', []) == [];
    } else {
      assert (keys + [k])[1..] == keys[1..] + [k];
      EntryLinesAppend(m, m', keys[1..], k);
    }
  }

  /** An empty section prints no entry; a key behind all others adds one line at the end. */
  lemma EntriesGrow(m: Section, k: string, v: string)
    requires k !in m && forall x :: x in m ==> Precedes(x, k)
    ensures EntriesText(map[]) == "" && EntriesText(m[k := v]) == EntriesText(m) + k + "=" + v + "\n"
  {
    NoEntries();
    hide SortedKeys, Less, Precedes, Unlines, EntryLines;
    forall x | x in m ensures Less(x, k) { LessExactly(x, k); }
    var m', keys := m[k := v], SortedKeys(m.Keys);
    assert m'.Keys == m.Keys + {k};
    GreatestComesLast(m.Keys, k);
    EntryLinesAppend(m, m', keys, k);
    OneMoreLine(EntryLines(m, keys), k + "=" + v);
    Regroup4(EntriesText(m), k, v);
  }

  lemma NoEntries()
    ensures EntriesText(map[]) == ""
  {
    var empty: Section := map[];
    assert empty.Keys == {};
    NoKeys();
    NoLines();
    assert EntryLines(empty, []) == [];
  }

  lemma Regroup4(a: string, k: string, v: string)
    ensures a + (k + "=" + v) + "\n" == a + k + "=" + v + "\n"
  {
  }

  lemma OneMoreLine(lines: seq<string>, line: string)
    ensures Unlines(lines + [line]) == Unlines(lines) + line + "\n"
  {
    UnlinesAppend(lines, [line]);
    HeaderFirst(line, []);
    assert [line] == [line] + [];
    NoLines();
    hide Unlines;
    assert Unlines(lines) + (line + "\n" + "") == Unlines(lines) + line + "\n";
  }

  lemma {:induction false} SectionLinesAppend(store: Store, store': Store, names: seq<string>, n: string)
    requires KeysIn(store, names) && n in store' && n !in names
    requires forall x :: x in store && x != n ==> x in store' && store'[x] == store[x]
    ensures KeysIn(store', names + [n])
    ensures AllSectionLines(store', names + [n]) == AllSectionLines(store, names) + SectionLines(n, store'[n])
    decreases names
  {
    hide SectionLines;
    if names == [] {
      assert [] + [n] == [n] && [n][1..] == [];
      assert AllSectionLines(store', []) == [];
    } else {
      assert (names + [n])[1..] == names[1..] + [n];
      SectionLinesAppend(store, store', names[1..], n);
    }
  }

  lemma Banners()
    ensures BEGIN_BANNER + [NEWLINE] == "Begin dump configuration\n"
    ensures FINISH_BANNER + [NEWLINE] == "Finish dump configuration \n"
  {
  }

  /** Everything printed before the closing banner. */
  function Front(store: Store): string {
    BEGIN_BANNER + [NEWLINE] + Unlines(AllSectionLines(store, SortedKeys(store.Keys)))
  }

  lemma DumpIs(store: Store)
    ensures Dump(store) == Front(store) + "Finish dump configuration \n"
  {
    hide Unlines, SortedKeys, AllSectionLines;
    var lines := AllSectionLines(store, SortedKeys(store.Keys));
    Banners();
    assert DumpLines(store) == [BEGIN_BANNER] + (lines + [FINISH_BANNER]);
    HeaderFirst(BEGIN_BANNER, lines + [FINISH_BANNER]);
    OneMoreLine(lines, FINISH_BANNER);
    Regroup(BEGIN_BANNER + [NEWLINE], Unlines(lines), FINISH_BANNER, "\n");
  }

  lemma Regroup(a: string, b: string, c: string, d: string)
    ensures a + (b + c + d) == a + b + (c + d)
  {
  }

  /** An empty store prints the two banners; a section whose name is behind all others adds its header, its entries and
      an empty line before the closing banner. */
  lemma DumpGrows(store: Store, n: string, m: Section) returns (front: string)
    ensures Dump(map[]) == "Begin dump configuration\n" + "Finish dump configuration \n"
    ensures Dump(store) == front + "Finish dump configuration \n"
    ensures n !in store && (forall x :: x in store ==> Precedes(x, n)) ==>
              Dump(store[n := m])
              == front + ("[" + n + "]\n" + EntriesText(m) + "\n") + "Finish dump configuration \n"
  {
    hide Dump, SortedKeys, Unlines, AllSectionLines;
    front := Front(store);
    DumpIs(store);
    DumpIs(map[]);
    EmptyFront();
    if n !in store && forall x :: x in store ==> Precedes(x, n) {
      DumpIs(store[n := m]);
      FrontGrows(store, n, m);
    }
  }

  lemma EmptyFront()
    ensures Front(map[]) == "Begin dump configuration\n"
  {
    var empty: Store := map[];
    NoKeys();
    NoLines();
    Banners();
    assert empty.Keys == {} && AllSectionLines(empty, []) == [];
  }

  lemma FrontGrows(store: Store, n: string, m: Section)
    requires n !in store && forall x :: x in store ==> Precedes(x, n)
    ensures Front(store[n := m]) == Front(store) + ("[" + n + "]\n" + EntriesText(m) + "\n")
  {
    hide SortedKeys, Unlines, AllSectionLines, SectionLines, Less, Precedes, EntriesText;
    forall x | x in store ensures Less(x, n) { LessExactly(x, n); }
    var store', names := store[n := m], SortedKeys(store.Keys);
    assert store'.Keys == store.Keys + {n};
    GreatestComesLast(store.Keys, n);
    SectionLinesAppend(store, store', names, n);
    UnlinesAppend(AllSectionLines(store, names), SectionLines(n, m));
    SectionText(n, m);
  }

  lemma SectionText(n: string, m: Section)
    ensures Unlines(SectionLines(n, m)) == "[" + n + "]\n" + EntriesText(m) + "\n"
  {
    hide SortedKeys, Unlines, EntryLines, SectionLines;
    UnlinesOfSection(n, m);
    assert "[" + n + "]" + "\n" == "[" + n + "]\n";
  }
}
