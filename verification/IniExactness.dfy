/** Every store that loading any text can produce, and exactly which stores survive printing and loading. */
module IniExactness {
  import opened CStrings
  import opened StringTools
  import opened StringOrder
  import opened Stripping
  import opened IniFile
  import opened IniRoundTrip
  import opened Options

  predicate PlainText(s: string) { forall i :: 0 <= i < |s| ==> s[i] != '\n' && s[i] != '\0' }

  /** What holds of every entry that was ever loaded, from one line or from several. */
  predicate CleanEntry(key: string, value: string) {
    && IsTrimmed(key) && IsTrimmed(value)
    && PlainText(key) && PlainText(value)
    && Free(key, "=")
    && key[0] != '#'
    && value[|value| - 1] != '\\'
  }

  predicate IsSectionName(name: string) { IsLine("[" + name + "]") }

  predicate CleanStore(store: Store) {
    && "" in store
    && forall n :: n in store ==> IsSectionName(n) && forall k :: k in store[n] ==> CleanEntry(k, store[n][k])
  }

  /** The text of an entry so far: plain, and starting like a line that is no comment. */
  predicate CleanText(entry: string) {
    PlainText(entry) && (entry != "" ==> !IsSpace(entry[0]) && entry[0] != '#')
  }

  predicate CleanLoader(st: Loader) { st.Valid() && CleanStore(st.sections) && CleanText(st.entry) }

  // ----- one line -----

  lemma TrimIsInside(s: string)
    ensures |Trim(s)| <= |s| && (PlainText(s) ==> PlainText(Trim(s)))
    ensures Trim(s) == "" || IsTrimmed(Trim(s))
  {
    if HasText(s) {
      TrimIsTrimmed(s);
      forall i | PlainText(s) && 0 <= i < |Trim(s)| ensures Trim(s)[i] != NEWLINE && Trim(s)[i] != NUL {
        assert Trim(s)[i] in s;
      }
    } else {
      TrimOfBlank(s);
    }
  }

  /** A line as `load` sees it after cutting it at the first NUL and stripping it. */
  lemma SeenLine(line: string)
    requires NEWLINE !in line
    ensures var p := Trim(CText(line));
            PlainText(p) && |p| <= |line| && (p == "" || IsTrimmed(p))
  {
    hide Trim;
    var s := CText(line);
    forall i | 0 <= i < |s| ensures s[i] != NEWLINE && s[i] != NUL {
      assert s[i] == line[i];
    }
    TrimIsInside(s);
  }

  /** The two halves of an entry text begin and end where the text does. */
  lemma TrimKeepsFirst(s: string)
    requires s != "" && !IsSpace(s[0])
    ensures Trim(s) != "" && Trim(s)[0] == s[0]
  {
    assert TrimLeft(s) == s;
    assert HasText(s);
    TrimIsTrimmed(s);
  }

  lemma TrimKeepsLast(s: string)
    requires s != "" && !IsSpace(s[|s| - 1])
    ensures Trim(s) != "" && Trim(s)[|Trim(s)| - 1] == s[|s| - 1]
  {
    var left := TrimLeft(s);
    assert left != "";
    assert left[|left| - 1] == s[|s| - 1];
    assert TrimRight(left) == left;
  }

  lemma PlainHalves(entry: string, e: nat)
    requires PlainText(entry) && e < |entry|
    ensures PlainText(entry[..e]) && PlainText(entry[e + 1..])
  {
  }

  /** What `insert_entry` reads out of a text that starts and ends with visible characters. */
  lemma EntryOfText(entry: string)
    requires CleanText(entry) && IsTrimmed(entry) && !Continues(entry) && ParseEntry(entry).Entry?
    ensures var e := ParseEntry(entry);
            && CleanEntry(e.key, e.value)
            && |e.key + "=" + e.value| <= |entry|
            && e.key[0] == entry[0] && e.value[|e.value| - 1] == entry[|entry| - 1]
  {
    hide Trim, HasText, PlainText;
    var k := FirstOf(entry, "=");
    var left, right := entry[..k], entry[k + 1..];
    ParsedEntryIsClean(entry);
    PlainHalves(entry, k);
    hide FirstOf;
    BlankHasNoText();
    TrimIsInside(left);
    TrimIsInside(right);
    TrimKeepsFirst(left);
    TrimKeepsLast(right);
  }

  lemma BlankHasNoText()
    ensures !HasText("")
  {
  }

  lemma InsertKeepsClean(st: Loader, entry: string)
    requires CleanLoader(st) && CleanText(entry) && IsTrimmed(entry) && !Continues(entry)
    requires InsertLine(st, entry).Some?
    ensures CleanLoader(InsertLine(st, entry).value)
  {
    hide CleanEntry, IsSectionName, ParseEntry, IsTrimmed;
    if ParseEntry(entry).Entry? { EntryOfText(entry); }
  }

  lemma AddedText(a: string, p: string)
    requires CleanText(a) && PlainText(p) && IsTrimmed(p) && p[0] != COMMENT_TAG
    ensures CleanText(a + p) && CleanText((a + p)[..|a + p| - 1])
    ensures IsTrimmed(a + p) && (a + p)[|a + p| - 1] == p[|p| - 1]
  {
  }

  lemma HeaderName(p: string)
    requires PlainText(p) && |p| < MAX_CFG_LINE_LEN && IsHeader(p)
    ensures |p| > 1 ==> IsSectionName(p[1..|p| - 1])
  {
    if |p| > 1 { assert p == [SESSION_START_TAG] + p[1..|p| - 1] + [SESSION_END_TAG]; }
  }

  lemma EnteredStaysClean(store: Store, name: string)
    requires CleanStore(store) && IsSectionName(name)
    ensures CleanStore(WithSection(store, name))
  {
    hide CleanEntry, IsSectionName;
  }

  lemma LineKeepsClean(st: Loader, line: string)
    requires CleanLoader(st) && NEWLINE !in line && |line| < MAX_CFG_LINE_LEN
    requires ProcessLine(st, line).Some?
    ensures CleanLoader(ProcessLine(st, line).value)
  {
    SeenLine(line);
    hide CleanStore, WithSection, IsTrimmed, Trim, CText, PlainText, InsertLine, CleanText;
    var p := Trim(CText(line));
    if p == "" || p[0] == COMMENT_TAG {
    } else if IsHeader(p) {
      HeaderName(p);
      EnteredStaysClean(st.sections, p[1..|p| - 1]);
    } else {
      AddedText(st.entry, p);
      if !Continues(p) { InsertKeepsClean(st, st.entry + p); }
    }
  }

  lemma {:induction false} LoadKeepsClean(st: Loader, text: string)
    requires CleanLoader(st) && LoadText(st, text).Some?
    ensures CleanLoader(LoadText(st, text).value)
    decreases |text|
  {
    hide ProcessLine, CleanStore, CleanText, LoadText;
    var n := LineLength(text);
    LoadTextStep(st, text);
    LineKeepsClean(st, text[..n]);
    if n < |text| && text[n] == NEWLINE { LoadKeepsClean(ProcessLine(st, text[..n]).value, text[n + 1..]); }
  }

  /** Whatever text is loaded into a clean store, however its lines are continued, the store stays clean. */
  lemma LoadedStoreIsClean(store: Store, text: string)
    requires CleanStore(WithSection(store, DEFAULT_SECTION)) && LoadText(StartOn(store), text).Some?
    ensures CleanStore(LoadText(StartOn(store), text).value.sections)
  {
    LoadKeepsClean(StartOn(store), text);
  }

  // ----- printed stores -----

  /** A line that is not continued, of any length. */
  predicate QuietLine(line: string) { PlainText(line) && !Continues(Trim(line)) }

  predicate AllQuiet(lines: seq<string>) { forall i :: 0 <= i < |lines| ==> QuietLine(lines[i]) }

  predicate WellFormedSections(store: Store) { forall n :: n in store ==> WellFormedSection(n, store[n]) }

  lemma EnteredStaysWellFormed(store: Store, name: string)
    requires WellFormedSections(store) && IsSectionName(name)
    ensures WellFormedSections(WithSection(store, name))
  {
    hide WellFormedEntry;
  }

  lemma InsertedStaysWellFormed(store: Store, name: string, k: string, v: string)
    requires WellFormedSections(store) && name in store && WellFormedEntry(k, v)
    ensures WellFormedSections(store[name := Insert(store[name], k, v)])
  {
    hide WellFormedEntry;
    assert WellFormedSection(name, store[name]);
  }

  /** Outside a continuation, a line of its own adds only entries whose printed line reads back. */
  lemma QuietStep(st: Loader, line: string)
    requires st.Valid() && !st.continued && WellFormedSections(st.sections)
    requires NEWLINE !in line && |line| < MAX_CFG_LINE_LEN && ProcessLine(st, line).Some?
    ensures var st' := ProcessLine(st, line).value;
            WellFormedSections(st'.sections) && (!Continues(Trim(CText(line))) ==> !st'.continued)
  {
    SeenLine(line);
    hide IsTrimmed, Trim, CText, PlainText, ParseEntry, IsLine, WellFormedEntry, WellFormedSections, Insert,
      WithSection;
    var p := Trim(CText(line));
    if p == "" || p[0] == COMMENT_TAG {
    } else if IsHeader(p) {
      HeaderName(p);
      EnteredStaysWellFormed(st.sections, p[1..|p| - 1]);
    } else if !Continues(p) {
      NothingPending(p);
      assert st.entry + p == p;
      if ParseEntry(p).Entry? {
        LineOfEntry(p);
        InsertedStaysWellFormed(st.sections, st.current, ParseEntry(p).key, ParseEntry(p).value);
      }
    }
  }

  lemma NothingPending(p: string)
    requires PlainText(p) && IsTrimmed(p) && p[0] != COMMENT_TAG
    ensures CleanText(p)
  {
  }

  lemma LineOfEntry(p: string)
    requires CleanText(p) && IsTrimmed(p) && !Continues(p) && !IsHeader(p) && |p| < MAX_CFG_LINE_LEN
    requires ParseEntry(p).Entry?
    ensures WellFormedEntry(ParseEntry(p).key, ParseEntry(p).value)
  {
    hide ParseEntry;
    EntryOfText(p);
  }

  /** Reading stops at a line that fills the buffer. */
  lemma LoadOverlong(st: Loader, line: string, tail: string)
    requires st.Valid() && PlainText(line) && |line| >= MAX_CFG_LINE_LEN
    ensures LoadText(st, line + tail) == ProcessLine(st, line[..MAX_CFG_LINE_LEN - 1])
  {
    hide ProcessLine, LoadText;
    var text, n := line + tail, MAX_CFG_LINE_LEN - 1;
    var k := FirstOf(text, [NEWLINE]);
    assert forall i :: 0 <= i < |line| ==> text[i] == line[i];
    assert LineLength(text) == n;
    LoadTextStep(st, text);
    assert text[..n] == line[..n] && text[n] == line[n];
    match ProcessLine(st, line[..n]) { case None => case Some(_) => }
  }

  lemma PlainIsSeen(line: string)
    requires PlainText(line)
    ensures CText(line) == line && NEWLINE !in line
  {
    assert line + "" == line;
    FirstOfFreePrefix(line, "", [NUL]);
    assert line[..|line|] == line;
  }

  lemma {:induction false} LoadQuiet(st: Loader, lines: seq<string>)
    requires st.Valid() && !st.continued && WellFormedSections(st.sections) && AllQuiet(lines)
    requires LoadText(st, Unlines(lines)).Some?
    ensures WellFormedSections(LoadText(st, Unlines(lines)).value.sections)
    decreases lines
  {
    hide ProcessLine, LoadText, WellFormedSections, Trim, CText;
    if lines == [] {
      LoadNothing(st);
    } else {
      var line, tail := lines[0], [NEWLINE] + Unlines(lines[1..]);
      assert Unlines(lines) == line + tail && tail[1..] == Unlines(lines[1..]);
      PlainIsSeen(line);
      if |line| < MAX_CFG_LINE_LEN {
        LoadFirstLine(st, line, tail);
        QuietStep(st, line);
        LoadQuiet(ProcessLine(st, line).value, lines[1..]);
      } else {
        LoadOverlong(st, line, tail);
        QuietStep(st, line[..MAX_CFG_LINE_LEN - 1]);
      }
    }
  }

  lemma QuietTrimmed(line: string)
    requires PlainText(line) && IsTrimmed(line) && !Continues(line)
    ensures QuietLine(line)
  {
    TrimOfTrimmed(line);
  }

  lemma {:induction false} EntriesAreQuiet(m: Section, keys: seq<string>)
    requires KeysIn(m, keys) && forall k :: k in m ==> CleanEntry(k, m[k])
    ensures AllQuiet(EntryLines(m, keys))
    decreases keys
  {
    if keys != [] {
      hide QuietLine;
      var k, v := keys[0], m[keys[0]];
      assert CleanEntry(k, v);
      var line := k + "=" + v;
      assert line[0] == k[0] && line[|line| - 1] == v[|v| - 1];
      QuietTrimmed(line);
      EntriesAreQuiet(m, keys[1..]);
    }
  }

  lemma HeaderIsQuiet(name: string)
    requires IsSectionName(name)
    ensures QuietLine([SESSION_START_TAG] + name + [SESSION_END_TAG])
  {
    QuietTrimmed([SESSION_START_TAG] + name + [SESSION_END_TAG]);
  }

  lemma EmptyIsQuiet()
    ensures QuietLine("")
  {
  }

  lemma JoinQuiet(a: seq<string>, b: seq<string>)
    requires AllQuiet(a) && AllQuiet(b)
    ensures AllQuiet(a + b)
  {
    hide QuietLine;
  }

  lemma {:induction false} SectionsAreQuiet(store: Store, names: seq<string>)
    requires CleanStore(store) && KeysIn(store, names)
    ensures AllQuiet(AllSectionLines(store, names))
    decreases names
  {
    if names != [] {
      hide QuietLine, SortedKeys, CleanEntry, IsSectionName, EntryLines;
      var n := names[0];
      var m := store[n];
      var entries := EntryLines(m, SortedKeys(m.Keys));
      HeaderIsQuiet(n);
      EntriesAreQuiet(m, SortedKeys(m.Keys));
      EmptyIsQuiet();
      JoinQuiet([[SESSION_START_TAG] + n + [SESSION_END_TAG]], entries);
      JoinQuiet([[SESSION_START_TAG] + n + [SESSION_END_TAG]] + entries, [""]);
      SectionsAreQuiet(store, names[1..]);
      JoinQuiet(SectionLines(n, m), AllSectionLines(store, names[1..]));
    }
  }

  lemma BannersAreQuiet()
    ensures QuietLine(BEGIN_BANNER) && QuietLine(FINISH_BANNER)
  {
    BeginBannerText();
    FinishBannerText();
    QuietTrimmed(BEGIN_BANNER);
    assert FINISH_BANNER[0..25] == FINISH_TEXT;
    TrimIs(FINISH_BANNER, 0, 25);
  }

  lemma DumpIsQuiet(store: Store)
    requires CleanStore(store)
    ensures AllQuiet(DumpLines(store))
  {
    hide QuietLine, AllSectionLines, CleanStore, SortedKeys;
    var names := SortedKeys(store.Keys);
    assert KeysIn(store, names);
    BannersAreQuiet();
    SectionsAreQuiet(store, names);
    JoinQuiet([BEGIN_BANNER], AllSectionLines(store, names));
    JoinQuiet([BEGIN_BANNER] + AllSectionLines(store, names), [FINISH_BANNER]);
  }

  predicate Survives(store: Store) {
    LoadText(StartOn(map[]), Dump(store)).Some? && LoadText(StartOn(map[]), Dump(store)).value.sections == store
  }

  /** Printing and loading into an empty store gives the store back if and only if the store is well-formed. */
  lemma PrintThenLoadExactly(store: Store)
    ensures Survives(store) <==> WellFormedStore(store)
  {
    hide LoadText, Dump, WellFormedSection;
    if WellFormedStore(store) {
      PrintThenLoad(store);
    } else if Survives(store) {
      SurvivorIsWellFormed(store);
    }
  }

  lemma SurvivorIsWellFormed(store: Store)
    requires Survives(store)
    ensures WellFormedStore(store)
  {
    hide LoadText, DumpLines, Unlines, WellFormedSection, CleanEntry, IsSectionName, AllQuiet;
    var st := StartOn(map[]);
    StartIsClean();
    LoadedStoreIsClean(map[], Dump(store));
    DumpIsQuiet(store);
    LoadQuiet(st, DumpLines(store));
  }

  lemma StartIsClean()
    ensures WithSection(map[], DEFAULT_SECTION) == StartOn(map[]).sections
    ensures CleanStore(StartOn(map[]).sections) && WellFormedSections(StartOn(map[]).sections)
  {
    EmptySectionIsWellFormed();
  }

  lemma EmptySectionIsWellFormed()
    ensures WellFormedSection(DEFAULT_SECTION, map[])
  {
  }

  // ----- single entries -----

  /** The text `to_string` prints for one entry. */
  function EntryText(key: string, value: string): string { key + "=" + value + "\n" }

  /** Loading the printed line, outside a continuation, adds that entry as `map::insert` does, and nothing else. */
  ghost predicate ReadsBack(key: string, value: string) {
    forall st: Loader :: st.Valid() && !st.continued ==> AddsEntry(st, key, value)
  }

  predicate AddsEntry(st: Loader, key: string, value: string)
    requires st.Valid()
  {
    LoadText(st, EntryText(key, value))
    == Some(st.(sections := st.sections[st.current := Insert(st.sections[st.current], key, value)]))
  }

  lemma WellFormedReadsBack(st: Loader, key: string, value: string)
    requires st.Valid() && !st.continued && WellFormedEntry(key, value)
    ensures AddsEntry(st, key, value)
  {
    LoadEntryLine(st, key, value);
    assert IsLine(key + "=" + value);
    hide ProcessLine, LoadText, WellFormedEntry, IsLine;
    assert [NEWLINE][1..] == "";
    LoadFirstLine(st, key + "=" + value, [NEWLINE]);
    LoadNothing(ProcessLine(st, key + "=" + value).value);
  }

  /** A printed entry reads back from every state if and only if it is well-formed. */
  lemma EntrySurvivesExactly(key: string, value: string)
    ensures ReadsBack(key, value) <==> WellFormedEntry(key, value)
  {
    hide AddsEntry, WellFormedEntry;
    if WellFormedEntry(key, value) {
      forall st: Loader | st.Valid() && !st.continued ensures AddsEntry(st, key, value) {
        WellFormedReadsBack(st, key, value);
      }
    } else if ReadsBack(key, value) {
      assert AddsEntry(StartOn(map[]), key, value);
      OnlyWellFormedIsAdded(key, value);
    }
  }

  lemma OnlyWellFormedIsAdded(key: string, value: string)
    requires AddsEntry(StartOn(map[]), key, value)
    ensures WellFormedEntry(key, value)
  {
    hide LoadText, WellFormedEntry, CleanEntry, IsSectionName;
    var st := StartOn(map[]);
    var section: Section := map[key := value];
    StartIsClean();
    LoadedStoreIsClean(map[], EntryText(key, value));
    var loaded := LoadText(st, EntryText(key, value)).value.sections;
    assert loaded[DEFAULT_SECTION] == section && key in section && section[key] == value;
    assert CleanEntry(key, value);
    QuietEntry(key, value);
    assert Unlines([key + "=" + value]) == EntryText(key, value) by { OneLineText(key + "=" + value); }
    hide EntryText, Unlines;
    LoadQuiet(st, [key + "=" + value]);
    assert WellFormedSection(DEFAULT_SECTION, loaded[DEFAULT_SECTION]);
  }

  lemma OneLineText(line: string)
    ensures Unlines([line]) == line + [NEWLINE]
  {
    assert [line][1..] == [];
    assert Unlines([]) == "";
  }

  lemma QuietEntry(key: string, value: string)
    requires CleanEntry(key, value)
    ensures QuietLine(key + "=" + value)
  {
    var line := key + "=" + value;
    assert line[0] == key[0] && line[|line| - 1] == value[|value| - 1];
    QuietTrimmed(line);
  }

  // ----- when loading is defined -----

  /** What a stripped line adds to the entry collected so far, and the entry it completes, if it does. */
  function AfterLine(pending: string, p: string): string {
    if p == "" || p[0] == '#' || IsHeader(p) then pending
    else if p[|p| - 1] == '\\' then pending + p[..|p| - 1]
    else ""
  }

  function CompletedBy(pending: string, p: string): seq<string> {
    if p == "" || p[0] == '#' || IsHeader(p) || p[|p| - 1] == '\\' then [] else [pending + p]
  }

  /** The logical lines of a text: the entries its lines complete, sections and comments aside. */
  function LogicalLines(pending: string, text: string): seq<string>
    decreases |text|
  {
    var n := LineLength(text);
    var p := Trim(CText(text[..n]));
    CompletedBy(pending, p)
    + (if n < |text| && text[n] == NEWLINE then LogicalLines(AfterLine(pending, p), text[n + 1..]) else [])
  }

  /** An equals sign with nothing but white space on one side of the first. */
  predicate HasBlankSide(entry: string) {
    exists e :: 0 <= e < |entry| && entry[e] == '=' && Free(entry[..e], "=")
                && (!HasText(entry[..e]) || !HasText(entry[e + 1..]))
  }

  lemma BlankExactly(entry: string)
    ensures ParseEntry(entry).Blank? <==> HasBlankSide(entry)
  {
    hide HasText, Trim;
    var k := FirstOf(entry, "=");
    if k < |entry| {
      assert Free(entry[..k], "=") && entry[k] == '=';
    }
    if HasBlankSide(entry) {
      var e :| 0 <= e < |entry| && entry[e] == '=' && Free(entry[..e], "=")
               && (!HasText(entry[..e]) || !HasText(entry[e + 1..]));
      assert entry[..e] + entry[e..] == entry;
      FirstOfFreePrefix(entry[..e], entry[e..], "=");
    }
  }

  lemma LineOutcome(st: Loader, line: string)
    requires st.Valid()
    ensures var p := Trim(CText(line));
            match ProcessLine(st, line) {
              case None => CompletedBy(st.entry, p) != [] && HasBlankSide(CompletedBy(st.entry, p)[0])
              case Some(st') =>
                && st'.entry == AfterLine(st.entry, p)
                && (CompletedBy(st.entry, p) != [] ==> !HasBlankSide(CompletedBy(st.entry, p)[0]))
            }
  {
    hide Trim, CText, ParseEntry, HasBlankSide;
    var p := Trim(CText(line));
    if p != "" { BlankExactly(st.entry + p); }
    assert p != "" ==> (st.entry + p)[..|st.entry + p| - 1] == st.entry + p[..|p| - 1];
  }

  /** Loading is undefined if and only if some logical line has an equals sign with a blank side, whatever the
      sections are. */
  lemma {:induction false} LoadingIsDefinedExactly(st: Loader, text: string)
    requires st.Valid()
    ensures LoadText(st, text).None? <==> exists e :: e in LogicalLines(st.entry, text) && HasBlankSide(e)
    decreases |text|
  {
    hide ProcessLine, LoadText, HasBlankSide, Trim, CText, LineLength;
    var n := LineLength(text);
    var p := Trim(CText(text[..n]));
    LoadTextStep(st, text);
    LineOutcome(st, text[..n]);
    var completed := CompletedBy(st.entry, p);
    assert forall e :: e in completed <==> completed != [] && e == completed[0];
    hide AfterLine, CompletedBy;
    if ProcessLine(st, text[..n]).Some? && n < |text| && text[n] == NEWLINE {
      LoadingIsDefinedExactly(ProcessLine(st, text[..n]).value, text[n + 1..]);
    }
    LogicalStep(st.entry, text);
  }

  lemma LogicalStep(pending: string, text: string)
    ensures var n := LineLength(text);
            var p := Trim(CText(text[..n]));
            LogicalLines(pending, text) == CompletedBy(pending, p)
            + (if n < |text| && text[n] == NEWLINE then LogicalLines(AfterLine(pending, p), text[n + 1..]) else [])
  {
    hide LineLength, Trim, CText, CompletedBy, AfterLine;
  }
}
