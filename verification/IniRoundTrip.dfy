/** What survives printing and loading, and what line continuation means. */
module IniRoundTrip {
  import opened CStrings
  import opened StringTools
  import opened StringOrder
  import opened Stripping
  import opened IniFile
  import opened Options

  // ----- lines of a text -----

  /** A line `getline` reads whole and C string functions see whole. */
  predicate IsLine(line: string) {
    |line| < 1024 && forall i :: 0 <= i < |line| ==> line[i] != '\n' && line[i] != '\0'
  }

  predicate AllLines(lines: seq<string>) { forall i :: 0 <= i < |lines| ==> IsLine(lines[i]) }

  function LoadLines(st: Loader, lines: seq<string>): (r: Option<Loader>)
    requires st.Valid()
    ensures r.Some? ==> r.value.Valid()
    decreases lines
  {
    if lines == [] then Some(st)
    else
      match ProcessLine(st, lines[0])
      case None => None
      case Some(st') => LoadLines(st', lines[1..])
  }

  lemma {:induction false} LoadLinesAppend(st: Loader, a: seq<string>, b: seq<string>)
    requires st.Valid()
    ensures LoadLines(st, a + b) ==
            match LoadLines(st, a) { case None => None case Some(st') => LoadLines(st', b) }
    decreases a
  {
    hide ProcessLine;
    if a == [] {
      assert a + b == b;
    } else {
      assert (a + b)[1..] == a[1..] + b;
      match ProcessLine(st, a[0])
      case None =>
      case Some(st') => LoadLinesAppend(st', a[1..], b);
    }
  }

  /** The end of a line: the end of the file or a newline. */
  predicate EndsLine(tail: string) { tail == "" || tail[0] == '\n' }

  lemma FirstLine(line: string, tail: string)
    requires IsLine(line) && EndsLine(tail)
    ensures LineLength(line + tail) == |line| && (line + tail)[..|line|] == line
    ensures tail != "" ==> (line + tail)[|line|] == NEWLINE && (line + tail)[|line| + 1..] == tail[1..]
  {
    FirstOfFreePrefix(line, tail, [NEWLINE]);
  }

  /** Loading a text that starts with a whole line processes that line first. */
  lemma LoadFirstLine(st: Loader, line: string, tail: string)
    requires st.Valid() && IsLine(line) && EndsLine(tail)
    ensures LoadText(st, line + tail) ==
            match ProcessLine(st, line) {
              case None => None
              case Some(st') => if tail == "" then Some(st') else LoadText(st', tail[1..])
            }
  {
    hide ProcessLine, LineLength;
    FirstLine(line, tail);
    LoadTextStep(st, line + tail);
  }

  lemma LoadNothing(st: Loader)
    requires st.Valid()
    ensures LoadText(st, "") == Some(st)
  {
    assert "" + "" == "";
    LoadFirstLine(st, "", "");
    LoadEmptyLine(st);
  }

  /** Loading a text of whole lines is processing them in order. */
  lemma {:induction false} LoadUnlines(st: Loader, lines: seq<string>)
    requires st.Valid() && AllLines(lines)
    ensures LoadText(st, Unlines(lines)) == LoadLines(st, lines)
    decreases lines
  {
    if lines == [] {
      LoadNothing(st);
    } else {
      hide ProcessLine, LineLength, LoadText;
      var tail := [NEWLINE] + Unlines(lines[1..]);
      assert Unlines(lines) == lines[0] + tail;
      LoadFirstLine(st, lines[0], tail);
      assert tail[1..] == Unlines(lines[1..]);
      match ProcessLine(st, lines[0])
      case None =>
      case Some(st') => LoadUnlines(st', lines[1..]);
    }
  }

  // ----- well-formed stores -----

  /** An entry whose printed line reads back as itself. */
  predicate WellFormedEntry(key: string, value: string) {
    && IsTrimmed(key) && IsTrimmed(value)
    && IsLine(key + "=" + value)
    && Free(key, "=")
    && key[0] != '#'
    && value[|value| - 1] != '\\'
    && !(key[0] == '[' && value[|value| - 1] == ']')
  }

  predicate WellFormedSection(name: string, m: Section) {
    && IsLine("[" + name + "]")
    && forall k :: k in m ==> WellFormedEntry(k, m[k])
  }

  predicate WellFormedStore(store: Store) {
    "" in store && forall n :: n in store ==> WellFormedSection(n, store[n])
  }

  // ----- single lines -----

  lemma TextOfLine(line: string)
    requires IsLine(line)
    ensures CText(line) == line
  {
    assert line + "" == line;
    FirstOfFreePrefix(line, "", [NUL]);
    assert line[..|line|] == line;
  }

  lemma StrippedText(line: string)
    requires IsLine(line) && IsTrimmed(line)
    ensures Trim(CText(line)) == line
  {
    TextOfLine(line);
    TrimOfTrimmed(line);
  }

  lemma EntryLineParses(key: string, value: string)
    requires WellFormedEntry(key, value)
    ensures var line := key + "=" + value;
            && ParseEntry(line) == Entry(key, value)
            && Trim(CText(line)) == line && line[0] != COMMENT_TAG && !IsHeader(line) && !Continues(line)
  {
    hide Trim, CText, HasText, FirstOf, IsLine, Free;
    var line := key + "=" + value;
    assert line[0] == key[0] && line[|line| - 1] == value[|value| - 1];
    StrippedText(line);
    KeyAndValue(key, value);
    TrimOfTrimmed(key);
    TrimOfTrimmed(value);
  }

  lemma KeyAndValue(key: string, value: string)
    requires Free(key, "=")
    ensures var line := key + "=" + value;
            FirstOf(line, "=") == |key| < |line| && line[..|key|] == key && line[|key| + 1..] == value
  {
    hide FirstOf;
    assert key + "=" + value == key + ("=" + value);
    FirstOfFreePrefix(key, "=" + value, "=");
  }

  /** An entry line outside a continuation adds the entry to the section in use. */
  lemma LoadEntryLine(st: Loader, key: string, value: string)
    requires st.Valid() && !st.continued && WellFormedEntry(key, value)
    ensures ProcessLine(st, key + "=" + value) ==
            Some(st.(sections := st.sections[st.current := Insert(st.sections[st.current], key, value)]))
  {
    hide Trim, CText, ParseEntry, WellFormedEntry;
    EntryLineParses(key, value);
    var line := key + "=" + value;
    assert st.entry + line == line;
  }

  lemma LoadHeaderLine(st: Loader, name: string)
    requires st.Valid() && IsLine("[" + name + "]")
    ensures ProcessLine(st, "[" + name + "]")
            == Some(st.(sections := WithSection(st.sections, name), current := name))
  {
    var line := [SESSION_START_TAG] + name + [SESSION_END_TAG];
    StrippedText(line);
    assert line[1..|line| - 1] == name;
  }

  lemma LoadEmptyLine(st: Loader)
    requires st.Valid()
    ensures ProcessLine(st, "") == Some(st)
  {
  }

  /** A line without an equals sign adds nothing. */
  lemma LoadBanner(st: Loader, banner: string, text: string)
    requires st.Valid() && !st.continued
    requires IsLine(banner) && IsTrimmed(text) && (banner == text || banner == text + " ")
    requires text[0] != COMMENT_TAG && text[0] != SESSION_START_TAG && !Continues(text) && Free(text, "=")
    ensures ProcessLine(st, banner) == Some(st)
  {
    TextOfLine(banner);
    assert banner[0..|text|] == text;
    TrimIs(banner, 0, |text|);
    assert text + "" == text;
    FirstOfFreePrefix(text, "", "=");
    assert st.entry + text == text;
    assert ParseEntry(text) == NoEquals;
  }

  lemma TrimIsTrimmed(s: string)
    requires HasText(s)
    ensures IsTrimmed(Trim(s)) && forall c :: c in Trim(s) ==> c in s
  {
    var left := TrimLeft(s);
    var i :| 0 <= i < |s| && !IsSpace(s[i]);
    assert left != "" && left[0] in s;
    assert TrimRight(left) != "";
  }

  lemma ParsedEntryIsClean(line: string)
    requires ParseEntry(line).Entry?
    ensures var e := ParseEntry(line); IsTrimmed(e.key) && IsTrimmed(e.value) && Free(e.key, "=")
  {
    hide Trim, HasText;
    var k := FirstOf(line, "=");
    TrimIsTrimmed(line[..k]);
    TrimIsTrimmed(line[k + 1..]);
    forall c | c in Trim(line[..k]) ensures c !in "=" {
      var i :| 0 <= i < k && line[..k][i] == c;
    }
  }

  // ----- whole stores -----

  /** The first value of every key stays. */
  function InsertAll(base: Section, m: Section, keys: seq<string>): Section
    requires KeysIn(m, keys)
    decreases keys
  {
    if keys == [] then base else InsertAll(Insert(base, keys[0], m[keys[0]]), m, keys[1..])
  }

  lemma {:induction false} InsertAllAt(base: Section, m: Section, keys: seq<string>, k: string)
    requires KeysIn(m, keys)
    ensures var r := InsertAll(base, m, keys);
            && (k in r <==> k in base || k in keys)
            && (k in r ==> r[k] == if k in base then base[k] else m[k])
    decreases keys
  {
    if keys != [] {
      assert k in keys <==> k == keys[0] || k in keys[1..];
      InsertAllAt(Insert(base, keys[0], m[keys[0]]), m, keys[1..], k);
    }
  }

  lemma InsertAllKeys(base: Section, m: Section)
    ensures KeysIn(m, SortedKeys(m.Keys)) && InsertAll(base, m, SortedKeys(m.Keys)) == m + base
  {
    hide InsertAll, SortedKeys;
    var r := InsertAll(base, m, SortedKeys(m.Keys));
    forall k ensures (k in r <==> k in m + base) && (k in r ==> r[k] == (m + base)[k]) {
      InsertAllAt(base, m, SortedKeys(m.Keys), k);
    }
  }

  lemma {:induction false} LoadEntries(st: Loader, m: Section, keys: seq<string>)
    requires st.Valid() && !st.continued && KeysIn(m, keys)
    requires forall k :: k in m ==> WellFormedEntry(k, m[k])
    ensures LoadLines(st, EntryLines(m, keys)) ==
            Some(st.(sections := st.sections[st.current := InsertAll(st.sections[st.current], m, keys)]))
    decreases keys
  {
    hide ProcessLine, WellFormedEntry, SortedKeys;
    if keys == [] {
      assert st.sections[st.current := st.sections[st.current]] == st.sections;
    } else {
      var k := keys[0];
      var inserted := Insert(st.sections[st.current], k, m[k]);
      var st' := st.(sections := st.sections[st.current := inserted]);
      LoadEntryLine(st, k, m[k]);
      LoadEntries(st', m, keys[1..]);
      var all := InsertAll(inserted, m, keys[1..]);
      assert st.sections[st.current := inserted][st.current := all] == st.sections[st.current := all];
    }
  }

  /** The entries of `m` added to section `name`, entries that were there before staying. */
  function MergeSection(store: Store, name: string, m: Section): Store {
    store[name := m + (if name in store then store[name] else map[])]
  }

  lemma LoadSection(st: Loader, name: string, m: Section)
    requires st.Valid() && !st.continued && WellFormedSection(name, m)
    ensures LoadLines(st, SectionLines(name, m))
            == Some(st.(sections := MergeSection(st.sections, name, m), current := name))
  {
    hide ProcessLine, SortedKeys, EntryLines, InsertAll, WellFormedEntry;
    var header := [SESSION_START_TAG] + name + [SESSION_END_TAG];
    var entered := st.(sections := WithSection(st.sections, name), current := name);
    var keys := SortedKeys(m.Keys);
    LoadHeaderLine(st, name);
    InsertAllKeys(entered.sections[name], m);
    LoadEntries(entered, m, keys);
    var filled := entered.(sections := MergeSection(st.sections, name, m));
    assert entered.sections[name := m + entered.sections[name]] == filled.sections;
    LoadEmptyLine(filled);
    assert SectionLines(name, m) == [header] + (EntryLines(m, keys) + [""]);
    LoadLinesAppend(entered, EntryLines(m, keys), [""]);
    OneLine(filled, "");
    assert ([header] + (EntryLines(m, keys) + [""]))[1..] == EntryLines(m, keys) + [""];
  }

  lemma OneLine(st: Loader, line: string)
    requires st.Valid()
    ensures LoadLines(st, [line]) == ProcessLine(st, line)
  {
    hide ProcessLine;
    assert [line][1..] == [];
    match ProcessLine(st, line) {
      case None =>
      case Some(st') => assert LoadLines(st', []) == Some(st');
    }
  }

  function MergeAll(store: Store, added: Store, names: seq<string>): Store
    requires KeysIn(added, names)
    decreases names
  {
    if names == [] then store else MergeAll(MergeSection(store, names[0], added[names[0]]), added, names[1..])
  }

  /** Both stores together; where both have a key, the value of `store` stays. */
  function Merged(store: Store, added: Store): Store {
    map n | n in store.Keys + added.Keys ::
      (if n in added then added[n] else map[]) + (if n in store then store[n] else map[])
  }

  lemma {:induction false} MergeAllAt(store: Store, added: Store, names: seq<string>, n: string)
    requires KeysIn(added, names)
    ensures var r := MergeAll(store, added, names);
            && (n in r <==> n in store || n in names)
            && (n in r ==> r[n] == (if n in names then added[n] else map[]) + (if n in store then store[n] else map[]))
    decreases names
  {
    if names != [] {
      var first := names[0];
      assert n in names <==> n == first || n in names[1..];
      MergeAllAt(MergeSection(store, first, added[first]), added, names[1..], n);
      if n == first {
        var old_ := if n in store then store[n] else map[];
        assert added[n] + (added[n] + old_) == added[n] + old_;
        assert map[] + (added[n] + old_) == added[n] + old_;
      }
    }
  }

  lemma MergeAllKeys(store: Store, added: Store)
    ensures KeysIn(added, SortedKeys(added.Keys))
    ensures MergeAll(store, added, SortedKeys(added.Keys)) == Merged(store, added)
  {
    hide MergeAll;
    var r := MergeAll(store, added, SortedKeys(added.Keys));
    forall n ensures (n in r <==> n in Merged(store, added)) && (n in r ==> r[n] == Merged(store, added)[n]) {
      MergeAllAt(store, added, SortedKeys(added.Keys), n);
    }
  }

  lemma {:induction false} LoadSections(st: Loader, store: Store, names: seq<string>)
    requires st.Valid() && !st.continued && KeysIn(store, names)
    requires forall n :: n in store ==> WellFormedSection(n, store[n])
    ensures match LoadLines(st, AllSectionLines(store, names)) {
              case None => false
              case Some(st') => st'.sections == MergeAll(st.sections, store, names) && !st'.continued
            }
    decreases names
  {
    hide ProcessLine, SectionLines, MergeSection, WellFormedSection;
    if names != [] {
      var n := names[0];
      LoadSection(st, n, store[n]);
      var st' := LoadLines(st, SectionLines(n, store[n])).value;
      LoadLinesAppend(st, SectionLines(n, store[n]), AllSectionLines(store, names[1..]));
      LoadSections(st', store, names[1..]);
    }
  }

  lemma {:induction false} EntriesAreLines(m: Section, keys: seq<string>)
    requires KeysIn(m, keys) && forall k :: k in m ==> WellFormedEntry(k, m[k])
    ensures AllLines(EntryLines(m, keys))
    decreases keys
  {
    if keys != [] {
      hide IsLine;
      EntriesAreLines(m, keys[1..]);
      assert WellFormedEntry(keys[0], m[keys[0]]);
    }
  }

  lemma JoinLines(a: seq<string>, b: seq<string>)
    requires AllLines(a) && AllLines(b)
    ensures AllLines(a + b)
  {
    hide IsLine;
  }

  lemma {:induction false} SectionsAreLines(store: Store, names: seq<string>)
    requires KeysIn(store, names) && forall n :: n in store ==> WellFormedSection(n, store[n])
    ensures AllLines(AllSectionLines(store, names))
    decreases names
  {
    if names != [] {
      hide WellFormedEntry, IsLine, SortedKeys, EntryLines;
      var n := names[0];
      var m := store[n];
      assert WellFormedSection(n, m);
      var entries := EntryLines(m, SortedKeys(m.Keys));
      EntriesAreLines(m, SortedKeys(m.Keys));
      assert IsLine("") by { EmptyIsLine(); }
      JoinLines([[SESSION_START_TAG] + n + [SESSION_END_TAG]], entries);
      JoinLines([[SESSION_START_TAG] + n + [SESSION_END_TAG]] + entries, [""]);
      SectionsAreLines(store, names[1..]);
      JoinLines(SectionLines(n, m), AllSectionLines(store, names[1..]));
    }
  }

  lemma EmptyIsLine()
    ensures IsLine("")
  {
  }

  const FINISH_TEXT := "Finish dump configuration"

  lemma BeginBannerText()
    ensures |BEGIN_BANNER| == 24 && BEGIN_BANNER[0] == 'B' && BEGIN_BANNER[23] == 'n'
    ensures forall i :: 0 <= i < |BEGIN_BANNER| ==>
              BEGIN_BANNER[i] != '=' && BEGIN_BANNER[i] != NUL && BEGIN_BANNER[i] != NEWLINE
  {
  }

  lemma FinishBannerText()
    ensures |FINISH_TEXT| == 25 && FINISH_TEXT[0] == 'F' && FINISH_TEXT[24] == 'n'
    ensures FINISH_BANNER == FINISH_TEXT + " "
    ensures forall i :: 0 <= i < |FINISH_TEXT| ==>
              FINISH_TEXT[i] != '=' && FINISH_TEXT[i] != NUL && FINISH_TEXT[i] != NEWLINE
  {
  }

  lemma BannersAddNothing(st: Loader)
    requires st.Valid() && !st.continued
    ensures IsLine(BEGIN_BANNER) && ProcessLine(st, BEGIN_BANNER) == Some(st)
    ensures IsLine(FINISH_BANNER) && ProcessLine(st, FINISH_BANNER) == Some(st)
  {
    hide ProcessLine;
    BeginBannerText();
    FinishBannerText();
    PlainBanner(st, BEGIN_BANNER, BEGIN_BANNER);
    PlainBanner(st, FINISH_TEXT, FINISH_BANNER);
  }

  lemma PlainBanner(st: Loader, text: string, banner: string)
    requires st.Valid() && !st.continued
    requires 0 < |text| < 100 && (banner == text || banner == text + " ")
    requires 'A' <= text[0] <= 'Z' && text[|text| - 1] == 'n'
    requires forall i :: 0 <= i < |text| ==> text[i] != '=' && text[i] != NUL && text[i] != NEWLINE
    ensures IsLine(banner) && ProcessLine(st, banner) == Some(st)
  {
    hide ProcessLine;
    assert Free(text, "=");
    LoadBanner(st, banner, text);
  }

  /** Loading a printed well-formed store into any store adds what is new and keeps what is there. */
  lemma PrintThenLoadMerges(store: Store, printed: Store)
    requires forall n :: n in printed ==> WellFormedSection(n, printed[n])
    ensures match LoadText(StartOn(store), Dump(printed)) {
              case None => false
              case Some(st) => st.sections == Merged(WithSection(store, DEFAULT_SECTION), printed)
            }
  {
    hide ProcessLine, SortedKeys, AllSectionLines, IsLine;
    var st := StartOn(store);
    var names := SortedKeys(printed.Keys);
    MergeAllKeys(st.sections, printed);
    var lines := AllSectionLines(printed, names);
    BannersAddNothing(st);
    SectionsAreLines(printed, names);
    JoinLines([BEGIN_BANNER], lines);
    JoinLines([BEGIN_BANNER] + lines, [FINISH_BANNER]);
    LoadUnlines(st, DumpLines(printed));
    LoadLinesAppend(st, [BEGIN_BANNER] + lines, [FINISH_BANNER]);
    LoadLinesAppend(st, [BEGIN_BANNER], lines);
    OneLine(st, BEGIN_BANNER);
    LoadSections(st, printed, names);
    var st' := LoadLines(st, lines).value;
    BannersAddNothing(st');
    OneLine(st', FINISH_BANNER);
  }

  /** Print, then load into an empty store: the same sections and entries. */
  lemma PrintThenLoad(store: Store)
    requires WellFormedStore(store)
    ensures match LoadText(StartOn(map[]), Dump(store)) {
              case None => false
              case Some(st) => st.sections == store
            }
  {
    hide LoadText, Dump, WellFormedSection;
    PrintThenLoadMerges(map[], store);
    var r := Merged(WithSection(map[], DEFAULT_SECTION), store);
    forall n ensures (n in r <==> n in store) && (n in r ==> r[n] == store[n]) {
      if n in store { assert store[n] + map[] == store[n]; }
    }
    assert r == store;
  }

  // ----- continuation -----

  /** A physical line that ends in a backslash and is not a comment. */
  predicate IsFragment(f: string) {
    IsLine(f + "\\") && !IsSpace((f + "\\")[0]) && (f + "\\")[0] != '#'
  }

  /** The text that completes a continued entry, and is neither a comment nor a header nor continued itself. */
  predicate IsLastFragment(g: string) {
    IsLine(g) && IsTrimmed(g) && g[0] != '#' && !IsHeader(g) && g[|g| - 1] != '\\'
  }

  /** A stripped line without line breaks, of any length. */
  predicate IsPiece(p: string) {
    IsTrimmed(p) && p[0] != '#' && forall i :: 0 <= i < |p| ==> p[i] != '\0'
  }

  lemma StrippedPiece(p: string)
    requires IsPiece(p)
    ensures Trim(CText(p)) == p
  {
    assert p + "" == p;
    FirstOfFreePrefix(p, "", [NUL]);
    assert p[..|p|] == p;
    TrimOfTrimmed(p);
  }

  /** Two lines, the first continued, act as the single line that joins them. */
  lemma JoinTwo(st: Loader, f: string, g: string)
    requires st.Valid() && IsPiece(f + "\\") && IsPiece(g) && IsPiece(f + g)
    requires !IsHeader(g) && !IsHeader(f + g)
    ensures ProcessLine(st, f + "\\").Some?
    ensures ProcessLine(ProcessLine(st, f + "\\").value, g) == ProcessLine(st, f + g)
  {
    hide Trim, CText, InsertLine;
    StrippedPiece(f + "\\");
    StrippedPiece(g);
    StrippedPiece(f + g);
    assert (st.entry + (f + "\\"))[..|st.entry + (f + "\\")| - 1] == st.entry + f;
    assert st.entry + f + g == st.entry + (f + g);
    assert (f + g)[|f + g| - 1] == g[|g| - 1];
    if !Continues(g) { SameInsert(st, st.(continued := true, entry := st.entry + f), st.entry + (f + g)); }
  }

  lemma SameInsert(a: Loader, b: Loader, entry: string)
    requires a.current in a.sections && a.sections == b.sections && a.current == b.current
    ensures InsertLine(a, entry) == InsertLine(b, entry)
  {
  }

  function Continued(fragments: seq<string>): seq<string> {
    if fragments == [] then [] else [fragments[0] + "\\"] + Continued(fragments[1..])
  }

  function Joined(fragments: seq<string>): string {
    if fragments == [] then "" else fragments[0] + Joined(fragments[1..])
  }

  lemma FragmentIsPiece(f: string)
    requires IsFragment(f)
    ensures IsPiece(f + "\\") && !IsHeader(f + "\\")
  {
  }

  lemma PieceOfTwo(f: string, g: string)
    requires IsPiece(f + "\\") && IsPiece(g)
    ensures IsPiece(f + g)
  {
    var p := f + g;
    assert p[|p| - 1] == g[|g| - 1];
    if f == "" { assert p == g; } else { assert p[0] == (f + "\\")[0]; }
    forall i | 0 <= i < |p| ensures p[i] != NUL {
      if i < |f| { assert p[i] == (f + "\\")[i]; } else { assert p[i] == g[i - |f|]; }
    }
  }

  /** Any number of continued lines and a last one act as the single joined line. */
  lemma {:induction false} JoinAll(st: Loader, f: string, fragments: seq<string>, g: string)
    requires st.Valid() && IsPiece(f + "\\") && IsPiece(g) && !IsHeader(g)
    requires forall i :: 0 <= i < |fragments| ==> IsFragment(fragments[i])
    requires !IsHeader(f + Joined(fragments) + g)
    ensures LoadLines(st, [f + "\\"] + Continued(fragments) + [g])
            == ProcessLine(st, f + Joined(fragments) + g)
    decreases fragments
  {
    hide ProcessLine, IsPiece, IsFragment, IsHeader;
    var first := f + "\\";
    if fragments == [] {
      PieceOfTwo(f, g);
      assert f + "" + g == f + g;
      JoinTwo(st, f, g);
      assert [first] + [] + [g] == [first] + [g] && ([first] + [g])[1..] == [g];
      OneLine(ProcessLine(st, first).value, g);
    } else {
      var second := fragments[0] + "\\";
      var rest := Continued(fragments[1..]) + [g];
      FragmentIsPiece(fragments[0]);
      PieceOfTwo(f, second);
      assert f + second == f + fragments[0] + "\\";
      assert f + fragments[0] + Joined(fragments[1..]) + g == f + Joined(fragments) + g;
      ContinuedIsNoHeader(f + fragments[0]);
      JoinTwo(st, f, second);
      JoinAll(st, f + fragments[0], fragments[1..], g);
      var merged := f + fragments[0] + "\\";
      assert [merged] + Continued(fragments[1..]) + [g] == [merged] + rest;
      assert [first] + Continued(fragments) + [g] == [first] + ([second] + rest);
      assert ([first] + ([second] + rest))[1..] == [second] + rest && ([second] + rest)[1..] == rest;
      assert ([merged] + rest)[1..] == rest;
      var mid := ProcessLine(st, first).value;
      assert LoadLines(st, [first] + ([second] + rest)) == LoadLines(mid, [second] + rest);
    }
  }

  lemma ContinuedIsNoHeader(f: string)
    ensures !IsHeader(f + "\\")
  {
  }

  /** Loading whole lines, a last line and what follows its end. */
  lemma {:induction false} LoadLinesThen(st: Loader, lines: seq<string>, last: string, tail: string)
    requires st.Valid() && AllLines(lines) && IsLine(last) && EndsLine(tail)
    ensures LoadText(st, Unlines(lines) + last + tail) ==
            match LoadLines(st, lines + [last]) {
              case None => None
              case Some(st') => if tail == "" then Some(st') else LoadText(st', tail[1..])
            }
    decreases lines
  {
    hide ProcessLine, LoadText, IsLine;
    if lines == [] {
      assert Unlines(lines) + last + tail == last + tail && lines + [last] == [last];
      OneLine(st, last);
      LoadFirstLine(st, last, tail);
    } else {
      var rest := Unlines(lines[1..]) + last + tail;
      assert Unlines(lines) + last + tail == lines[0] + ([NEWLINE] + rest);
      assert ([NEWLINE] + rest)[1..] == rest && (lines + [last])[1..] == lines[1..] + [last];
      LoadFirstLine(st, lines[0], [NEWLINE] + rest);
      match ProcessLine(st, lines[0])
      case None =>
      case Some(st') => LoadLinesThen(st', lines[1..], last, tail);
    }
  }

  predicate WholeLines(text: string) { text == "" || text[|text| - 1] == '\n' }

  ghost predicate LoadsAlike(a: string, b: string) {
    forall s: Loader :: s.Valid() ==> LoadText(s, a) == LoadText(s, b)
  }

  lemma LoadWithin(st: Loader, before: string, a: string)
    requires st.Valid() && before != "" && WholeLines(before)
    ensures var n := LineLength(before);
            && n < |before|
            && (before[n] == NEWLINE ==> WholeLines(before[n + 1..]))
            && LoadText(st, before + a) ==
               match ProcessLine(st, before[..n]) {
                 case None => None
                 case Some(st') => if before[n] == NEWLINE then LoadText(st', before[n + 1..] + a) else Some(st')
               }
  {
    hide ProcessLine, LoadText, LineLength, WholeLines;
    LineWithin(before, a);
    LoadTextStep(st, before + a);
  }

  lemma AlikeAt(st: Loader, a: string, b: string)
    requires st.Valid() && LoadsAlike(a, b)
    ensures LoadText(st, a) == LoadText(st, b)
  {
    hide LoadText;
  }

  /** Texts that load alike from every state still do behind the same whole lines. */
  lemma {:induction false} SameBehind(st: Loader, before: string, a: string, b: string)
    requires st.Valid() && WholeLines(before) && LoadsAlike(a, b)
    ensures LoadText(st, before + a) == LoadText(st, before + b)
    decreases |before|
  {
    hide ProcessLine, LoadText, LineLength, WholeLines, LoadsAlike;
    if before == "" {
      assert before + a == a && before + b == b;
      AlikeAt(st, a, b);
    } else {
      var n := LineLength(before);
      LoadWithin(st, before, a);
      LoadWithin(st, before, b);
      match ProcessLine(st, before[..n])
      case None =>
      case Some(st') => if before[n] == NEWLINE { SameBehind(st', before[n + 1..], a, b); }
    }
  }

  lemma LineWithin(before: string, a: string)
    requires before != "" && WholeLines(before)
    ensures var n := LineLength(before + a);
            && n == LineLength(before) < |before|
            && (before + a)[..n] == before[..n] && (before + a)[n] == before[n]
            && (before[n] == NEWLINE ==> (before + a)[n + 1..] == before[n + 1..] + a && WholeLines(before[n + 1..]))
  {
    FirstOfWithin(before, a);
    hide FirstOf;
    var n := LineLength(before);
    assert (before + a)[..n] == before[..n];
    assert (before + a)[n + 1..] == before[n + 1..] + a;
  }

  lemma FirstOfWithin(before: string, a: string)
    requires before != "" && WholeLines(before)
    ensures FirstOf(before + a, [NEWLINE]) == FirstOf(before, [NEWLINE]) < |before|
  {
    var k := FirstOf(before, [NEWLINE]);
    assert before[|before| - 1] in [NEWLINE];
    hide FirstOf;
    var line, rest := before[..k], before[k..] + a;
    assert before + a == line + rest && rest[0] == before[k];
    FirstOfFreePrefix(line, rest, [NEWLINE]);
  }

  lemma {:induction false} FragmentsAreLines(fragments: seq<string>)
    requires forall i :: 0 <= i < |fragments| ==> IsFragment(fragments[i])
    ensures AllLines(Continued(fragments))
  {
    if fragments != [] {
      hide IsLine;
      FragmentsAreLines(fragments[1..]);
      assert IsFragment(fragments[0]);
    }
  }

  /** Splitting an entry over physical lines ending in a backslash loads the same store as the joined line,
      in any state, behind any whole lines and before anything. */
  lemma ContinuationIsTransparent(st: Loader, before: string, fragments: seq<string>, last: string, tail: string)
    requires st.Valid() && WholeLines(before) && EndsLine(tail)
    requires fragments != [] && forall i :: 0 <= i < |fragments| ==> IsFragment(fragments[i])
    requires IsLastFragment(last)
    requires IsLine(Joined(fragments) + last) && !IsHeader(Joined(fragments) + last)
    ensures LoadText(st, before + (Unlines(Continued(fragments)) + last + tail))
            == LoadText(st, before + (Joined(fragments) + last + tail))
  {
    hide ProcessLine, LoadText;
    var a := Unlines(Continued(fragments)) + last + tail;
    var b := Joined(fragments) + last + tail;
    forall s: Loader | s.Valid() ensures LoadText(s, a) == LoadText(s, b) {
      SplitEntryLoadsAlike(s, fragments, last, tail);
    }
    SameBehind(st, before, a, b);
  }

  lemma SplitEntryLoadsAlike(st: Loader, fragments: seq<string>, last: string, tail: string)
    requires st.Valid() && EndsLine(tail)
    requires fragments != [] && forall i :: 0 <= i < |fragments| ==> IsFragment(fragments[i])
    requires IsLastFragment(last)
    requires IsLine(Joined(fragments) + last) && !IsHeader(Joined(fragments) + last)
    ensures LoadText(st, Unlines(Continued(fragments)) + last + tail)
            == LoadText(st, Joined(fragments) + last + tail)
  {
    FragmentIsPiece(fragments[0]);
    assert IsPiece(last);
    hide ProcessLine, LoadText, IsLine, IsHeader, IsFragment, IsPiece;
    var first, rest := fragments[0] + "\\", Continued(fragments[1..]);
    FragmentsAreLines(fragments);
    LoadLinesThen(st, Continued(fragments), last, tail);
    assert Continued(fragments) + [last] == [first] + rest + [last];
    assert fragments[0] + Joined(fragments[1..]) + last == Joined(fragments) + last;
    JoinAll(st, fragments[0], fragments[1..], last);
    LoadFirstLine(st, Joined(fragments) + last, tail);
  }
}
