/** The INI store of src/common/ini_parser.cpp: line state machine and printer. */
module IniFile {
  import opened CStrings
  import opened StringTools
  import opened StringOrder
  import opened Stripping
  import opened Options

  type Section = map<string, string>
  type Store = map<string, Section>

  const DEFAULT_SECTION := ""
  const MAX_CFG_LINE_LEN := 1024
  const COMMENT_TAG: char := '#'
  const CONTINUE_TAG: char := '\\'
  const SESSION_START_TAG: char := '['
  const SESSION_END_TAG: char := ']'
  const NEWLINE: char := '\n'

  // ----- entries -----

  /** The text up to the first NUL, as C string functions see it. */
  function CText(s: string): string { s[..FirstOf(s, [NUL])] }

  datatype Parsed = Entry(key: string, value: string) | NoEquals | Blank

  /** How `insert_entry` reads "key=value"; a blank key or value makes `strip` read outside the string. */
  function ParseEntry(line: string): Parsed {
    var e := FirstOf(line, "=");
    if e == |line| then NoEquals
    else if !HasText(line[..e]) || !HasText(line[e + 1..]) then Blank
    else Entry(Trim(line[..e]), Trim(line[e + 1..]))
  }

  /** `map::insert`: the first value of a key stays. */
  function Insert(m: Section, key: string, value: string): Section {
    if key in m then m else m[key := value]
  }

  function WithSection(store: Store, name: string): Store {
    if name in store then store else store[name := map[]]
  }

  // ----- the line state machine -----

  /** Section in use, whether the last line asked for continuation, and the text collected so far. */
  datatype Loader = Loader(sections: Store, current: string, continued: bool, entry: string) {
    predicate Valid() { current in sections && (!continued ==> entry == "") }
  }

  predicate IsHeader(line: string) {
    line != "" && line[0] == SESSION_START_TAG && line[|line| - 1] == SESSION_END_TAG
  }

  predicate Continues(line: string) { line != "" && line[|line| - 1] == CONTINUE_TAG }

  /** Inserting a complete entry into the section in use; None where the behaviour is undefined. */
  function InsertLine(st: Loader, entry: string): (r: Option<Loader>)
    requires st.current in st.sections
    ensures r.Some? ==> r.value.Valid()
  {
    var done := st.(continued := false, entry := "");
    match ParseEntry(entry)
    case NoEquals => Some(done)
    case Blank => None
    case Entry(k, v) =>
      Some(done.(sections := st.sections[st.current := Insert(st.sections[st.current], k, v)]))
  }

  /** One physical line, already stripped. */
  function StrippedLine(st: Loader, line: string): (r: Option<Loader>)
    requires st.Valid()
    ensures r.Some? ==> r.value.Valid()
  {
    if line == "" || line[0] == COMMENT_TAG then Some(st)
    else if IsHeader(line) then
      var name := line[1..|line| - 1];
      Some(st.(sections := WithSection(st.sections, name), current := name))
    else
      var entry := st.entry + line;
      if Continues(line) then Some(st.(continued := true, entry := entry[..|entry| - 1]))
      else InsertLine(st, entry)
  }

  function ProcessLine(st: Loader, line: string): (r: Option<Loader>)
    requires st.Valid()
    ensures r.Some? ==> r.value.Valid()
  {
    StrippedLine(st, Trim(CText(line)))
  }

  /** Characters `getline` stores: up to the newline, the end of the file, or a full buffer. */
  function LineLength(text: string): (n: nat)
    ensures n <= |text| && n < MAX_CFG_LINE_LEN
    ensures NEWLINE !in text[..n]
  {
    var k := FirstOf(text, [NEWLINE]);
    assert forall i :: 0 <= i < k ==> text[i] != NEWLINE;
    if k < MAX_CFG_LINE_LEN then k else MAX_CFG_LINE_LEN - 1
  }

  /** Reading goes on only behind a newline: at the end of the file and on an overlong line it stops. */
  function LoadText(st: Loader, text: string): (r: Option<Loader>)
    requires st.Valid()
    decreases |text|
  {
    var n := LineLength(text);
    match ProcessLine(st, text[..n])
    case None => None
    case Some(st') =>
      if n < |text| && text[n] == NEWLINE then LoadText(st', text[n + 1..]) else Some(st')
  }

  function StartOn(store: Store): (st: Loader)
    ensures st.Valid()
  {
    Loader(WithSection(store, DEFAULT_SECTION), DEFAULT_SECTION, false, "")
  }

  // ----- printing -----

  predicate KeysIn<V>(m: map<string, V>, keys: seq<string>) { forall i :: 0 <= i < |keys| ==> keys[i] in m }

  function EntryLines(m: Section, keys: seq<string>): seq<string>
    requires KeysIn(m, keys)
  {
    if keys == [] then [] else [keys[0] + "=" + m[keys[0]]] + EntryLines(m, keys[1..])
  }

  function SectionLines(name: string, m: Section): seq<string> {
    [[SESSION_START_TAG] + name + [SESSION_END_TAG]] + EntryLines(m, SortedKeys(m.Keys)) + [""]
  }

  function AllSectionLines(store: Store, names: seq<string>): seq<string>
    requires KeysIn(store, names)
  {
    if names == [] then [] else SectionLines(names[0], store[names[0]]) + AllSectionLines(store, names[1..])
  }

  const BEGIN_BANNER := "Begin dump configuration"
  const FINISH_BANNER := "Finish dump configuration "

  function DumpLines(store: Store): seq<string> {
    [BEGIN_BANNER] + AllSectionLines(store, SortedKeys(store.Keys)) + [FINISH_BANNER]
  }

  /** Every line followed by a newline. */
  function Unlines(lines: seq<string>): string {
    if lines == [] then "" else lines[0] + [NEWLINE] + Unlines(lines[1..])
  }

  function Dump(store: Store): string { Unlines(DumpLines(store)) }

  lemma {:induction false} UnlinesAppend(a: seq<string>, b: seq<string>)
    ensures Unlines(a + b) == Unlines(a) + Unlines(b)
  {
    if a == [] {
      assert a + b == b;
    } else {
      UnlinesAppend(a[1..], b);
      assert (a + b)[1..] == a[1..] + b;
      assert a[0] + [NEWLINE] + (Unlines(a[1..]) + Unlines(b)) == a[0] + [NEWLINE] + Unlines(a[1..]) + Unlines(b);
    }
  }

  // ----- the class -----

  datatype LoadStatus = Loaded | Undefined

  class IniFile {
    var sections: Store
    var fileNames: set<string>

    constructor ()
      ensures sections == map[] && fileNames == {}
    {
      sections := map[];
      fileNames := {};
    }

    method InsertSession(name: string)
      modifies this`sections
      ensures sections == WithSection(old(sections), name)
    {
      if name !in sections { sections := sections[name := map[]]; }
    }

    /** `switch_session`; the section is named instead of pointed to. */
    method SwitchSession(name: string) returns (current: string)
      modifies this`sections
      ensures current == name && sections == WithSection(old(sections), name) && current in sections
    {
      if name in sections { return name; }
      InsertSession(name);
      return name;
    }

    function GetSection(section: string): Section
      reads this
    {
      if section in sections then sections[section] else map[]
    }

    method Get(key: string, defaultValue: string, section: string) returns (value: string)
      ensures value == if section in sections && key in sections[section] then sections[section][key] else defaultValue
    {
      var m := GetSection(section);
      if key !in m { return defaultValue; }
      return m[key];
    }

    method Put(key: string, value: string, section: string)
      modifies this`sections
      ensures var before := WithSection(old(sections), section);
              sections == before[section := Insert(before[section], key, value)]
    {
      var current := SwitchSession(section);
      sections := sections[current := Insert(sections[current], key, value)];
    }

    method InsertEntry(current: string, line: string) returns (status: LoadStatus)
      requires current in sections
      modifies this`sections
      ensures match ParseEntry(line) {
                case NoEquals => status == Loaded && sections == old(sections)
                case Blank => status == Undefined
                case Entry(k, v) =>
                  status == Loaded && sections == old(sections)[current := Insert(old(sections)[current], k, v)]
              }
    {
      var equalPos := FirstOf(line, "=");
      if equalPos == |line| { return Loaded; }
      var key := line[..equalPos];
      var value := line[equalPos + 1..];
      if !HasText(key) || !HasText(value) { return Undefined; }
      key := Strip(key);
      value := Strip(value);
      sections := sections[current := Insert(sections[current], key, value)];
      return Loaded;
    }

    /** The locals of `load` as a state; the collected text only matters while a line is continued. */
    ghost function State(current: string, continued: bool, lineEntry: string): Loader
      reads this
    {
      Loader(sections, current, continued, if continued then lineEntry else "")
    }

    /** The body of the loop of `load`, after the line was read and stripped. */
    method LoadLine(current: string, continued: bool, lineEntry: string, readBuf: string)
        returns (status: LoadStatus, current': string, continued': bool, lineEntry': string)
      requires current in sections
      modifies this`sections
      ensures match StrippedLine(old(State(current, continued, lineEntry)), readBuf) {
                case None => status == Undefined
                case Some(st) =>
                  status == Loaded && State(current', continued', lineEntry') == st && current' in sections
              }
    {
      hide ParseEntry;
      status, current', continued', lineEntry' := Loaded, current, continued, lineEntry;
      if readBuf == "" || readBuf[0] == COMMENT_TAG { return; }
      if IsHeader(readBuf) {
        current' := SwitchSession(readBuf[1..|readBuf| - 1]);
        return;
      }
      if !continued { lineEntry' := readBuf; } else { lineEntry' := lineEntry + readBuf; }
      assert lineEntry' == (if continued then lineEntry else "") + readBuf;
      if Continues(readBuf) {
        continued' := true;
        lineEntry' := lineEntry'[..|lineEntry'| - 1];
        return;
      }
      continued' := false;
      status := InsertEntry(current, lineEntry');
    }

    /** `load` on the text of a file. */
    method Load(fileName: string, text: string) returns (status: LoadStatus)
      modifies this
      ensures match LoadText(StartOn(old(sections)), text) {
                case None => status == Undefined
                case Some(st) => status == Loaded && sections == st.sections && fileNames == old(fileNames) + {fileName}
              }
    {
      hide ProcessLine, LineLength, LoadText, StrippedLine, Trim, CText, HoldsText;
      var continueLastLine := false;
      var current := SwitchSession(DEFAULT_SECTION);
      var lineEntry := "";
      var line := new char[MAX_CFG_LINE_LEN];
      var rest, good := text, true;
      ghost var all := LoadText(StartOn(old(sections)), text);
      while good
        invariant fileNames == old(fileNames) && current in sections
        invariant var st := State(current, continueLastLine, lineEntry);
                  all == if good then LoadText(st, rest) else Some(st)
        decreases good, |rest|
      {
        LoadTextStep(State(current, continueLastLine, lineEntry), rest);
        var n := GetLine(line, rest);
        ProcessedLine(State(current, continueLastLine, lineEntry), rest[..n]);
        var readBuf := ReadBuffer(line, CText(rest[..n]));
        status, current, continueLastLine, lineEntry := LoadLine(current, continueLastLine, lineEntry, readBuf);
        if status == Undefined { return; }
        good := n < |rest| && rest[n] == NEWLINE;
        if good { rest := rest[n + 1..]; }
      }
      fileNames := fileNames + {fileName};
      return Loaded;
    }

    /** The loop over the entries of one section. */
    method PrintEntries(m: Section, keys: seq<string>) returns (out: string)
      requires KeysIn(m, keys)
      ensures out == Unlines(EntryLines(m, keys))
    {
      hide Unlines, EntryLines;
      out := "";
      assert keys[0..] == keys;
      for j := 0 to |keys|
        invariant Unlines(EntryLines(m, keys)) == out + Unlines(EntryLines(m, keys[j..]))
      {
        ghost var rest := Unlines(EntryLines(m, keys[j + 1..]));
        UnlinesOfEntries(m, keys[j..]);
        assert keys[j..][1..] == keys[j + 1..];
        var line := keys[j] + "=" + m[keys[j]] + [NEWLINE];
        assert out + (line + rest) == out + line + rest;
        out := out + line;
      }
      UnlinesOfNoEntries(m);
    }

    method PrintSection(name: string, m: Section) returns (out: string)
      ensures out == Unlines(SectionLines(name, m))
    {
      out := [SESSION_START_TAG] + name + [SESSION_END_TAG] + [NEWLINE];
      UnlinesOfSection(name, m);
      var entries := PrintEntries(m, SortedKeys(m.Keys));
      out := out + entries;
      out := out + [NEWLINE];
    }

    method ToString() returns (out: string)
      ensures out == Dump(sections)
    {
      hide SectionLines, Unlines, SortedKeys;
      var names := SortedKeys(sections.Keys);
      assert names[0..] == names && KeysIn(sections, names);
      out := BEGIN_BANNER + [NEWLINE];
      HeaderFirst(BEGIN_BANNER, AllSectionLines(sections, names) + [FINISH_BANNER]);
      assert DumpLines(sections) == [BEGIN_BANNER] + (AllSectionLines(sections, names) + [FINISH_BANNER]);
      hide AllSectionLines, DumpLines;
      for i := 0 to |names|
        invariant Dump(sections) == out + Unlines(AllSectionLines(sections, names[i..]) + [FINISH_BANNER])
      {
        assert names[i..][1..] == names[i + 1..];
        ghost var rest := Unlines(AllSectionLines(sections, names[i + 1..]) + [FINISH_BANNER]);
        UnlinesOfSections(sections, names[i..]);
        var text := PrintSection(names[i], sections[names[i]]);
        assert out + (text + rest) == out + text + rest;
        out := out + text;
      }
      NoSections(sections);
      out := out + (FINISH_BANNER + [NEWLINE]);
    }
  }

  // ----- the line buffer -----

  /** `memset` and `getline`: up to the newline, the end of the text or a full buffer. */
  method GetLine(line: array<char>, rest: string) returns (n: nat)
    requires line.Length == MAX_CFG_LINE_LEN
    modifies line
    ensures n == LineLength(rest) && HoldsText(line[..], 0, CText(rest[..n]))
  {
    for i := 0 to line.Length
      invariant forall k :: 0 <= k < i ==> line[k] == NUL
    {
      line[i] := NUL;
    }
    n := 0;
    while n < |rest| && n < MAX_CFG_LINE_LEN - 1 && rest[n] != NEWLINE
      invariant n <= |rest| && n < MAX_CFG_LINE_LEN
      invariant forall k :: 0 <= k < n ==> line[k] == rest[k] != NEWLINE
      invariant forall k :: n <= k < line.Length ==> line[k] == NUL
      decreases |rest| - n
    {
      line[n] := rest[n];
      n := n + 1;
    }
    LengthIs(rest, n);
    LineHeld(line[..], rest[..n]);
  }

  lemma LengthIs(text: string, n: nat)
    requires n <= |text| && n < MAX_CFG_LINE_LEN && forall k :: 0 <= k < n ==> text[k] != NEWLINE
    requires n == |text| || n == MAX_CFG_LINE_LEN - 1 || text[n] == NEWLINE
    ensures LineLength(text) == n
  {
    if n == |text| || text[n] == NEWLINE { FirstOfPrefix(text, NEWLINE, n); }
  }

  lemma LineHeld(buffer: seq<char>, line: string)
    requires |line| < |buffer| && forall k :: 0 <= k < |line| ==> buffer[k] == line[k]
    requires buffer[|line|] == NUL
    ensures HoldsText(buffer, 0, CText(line))
  {
    var text := CText(line);
    assert buffer[0..|text|] == text;
  }

  /** `strip` on the buffer, and the C string that starts where it says. */
  method ReadBuffer(line: array<char>, ghost text: string) returns (readBuf: string)
    requires HoldsText(line[..], 0, text)
    modifies line
    ensures readBuf == Trim(text)
  {
    hide Trim;
    var head := StripBuffer(line, text);
    ghost var stripped := Trim(text);
    HeldText(line[..], head, stripped);
    readBuf := "";
    while line[head + |readBuf|] != NUL
      invariant |readBuf| <= |stripped| && readBuf == stripped[..|readBuf|]
      decreases |stripped| - |readBuf|
    {
      readBuf := readBuf + [line[head + |readBuf|]];
    }
  }

  lemma HeldText(buffer: seq<char>, off: nat, text: string)
    requires HoldsText(buffer, off, text)
    ensures off + |text| < |buffer| && buffer[off + |text|] == NUL
    ensures forall i :: 0 <= i < |text| ==> buffer[off + i] == text[i] != NUL
  {
    forall i | 0 <= i < |text| ensures buffer[off + i] == text[i] {
      assert buffer[off..off + |text|][i] == text[i];
    }
  }

  lemma ProcessedLine(st: Loader, line: string)
    requires st.Valid()
    ensures ProcessLine(st, line) == StrippedLine(st, Trim(CText(line)))
  {
  }

  lemma NoLines()
    ensures Unlines([]) == ""
  {
  }

  lemma HeaderFirst(line: string, rest: seq<string>)
    ensures Unlines([line] + rest) == line + [NEWLINE] + Unlines(rest)
  {
    assert ([line] + rest)[1..] == rest;
  }

  lemma UnlinesOfEntries(m: Section, keys: seq<string>)
    requires keys != [] && KeysIn(m, keys)
    ensures Unlines(EntryLines(m, keys)) == keys[0] + "=" + m[keys[0]] + [NEWLINE] + Unlines(EntryLines(m, keys[1..]))
  {
    HeaderFirst(keys[0] + "=" + m[keys[0]], EntryLines(m, keys[1..]));
  }

  lemma UnlinesOfNoEntries(m: Section)
    ensures Unlines(EntryLines(m, [])) == ""
  {
  }

  lemma UnlinesOfSection(name: string, m: Section)
    ensures Unlines(SectionLines(name, m)) ==
            [SESSION_START_TAG] + name + [SESSION_END_TAG] + [NEWLINE]
            + Unlines(EntryLines(m, SortedKeys(m.Keys))) + [NEWLINE]
  {
    hide Unlines, EntryLines, SortedKeys;
    var header, entries := [SESSION_START_TAG] + name + [SESSION_END_TAG], EntryLines(m, SortedKeys(m.Keys));
    HeaderFirst("", []);
    NoLines();
    assert [""] == [""] + [];
    UnlinesAppend(entries, [""]);
    assert SectionLines(name, m) == [header] + (entries + [""]);
    HeaderFirst(header, entries + [""]);
    assert "" + [NEWLINE] + "" == [NEWLINE];
    assert header + [NEWLINE] + (Unlines(entries) + [NEWLINE]) == header + [NEWLINE] + Unlines(entries) + [NEWLINE];
  }

  lemma NoSections(store: Store)
    ensures Unlines(AllSectionLines(store, []) + [FINISH_BANNER]) == FINISH_BANNER + [NEWLINE]
  {
    assert AllSectionLines(store, []) + [FINISH_BANNER] == [FINISH_BANNER] + [];
    HeaderFirst(FINISH_BANNER, []);
    NoLines();
  }

  lemma UnlinesOfSections(store: Store, names: seq<string>)
    requires names != [] && KeysIn(store, names)
    ensures Unlines(AllSectionLines(store, names) + [FINISH_BANNER]) ==
            Unlines(SectionLines(names[0], store[names[0]]))
            + Unlines(AllSectionLines(store, names[1..]) + [FINISH_BANNER])
  {
    hide Unlines, SectionLines;
    var lines, rest := SectionLines(names[0], store[names[0]]), AllSectionLines(store, names[1..]);
    assert AllSectionLines(store, names) + [FINISH_BANNER] == lines + (rest + [FINISH_BANNER]);
    UnlinesAppend(lines, rest + [FINISH_BANNER]);
  }

  lemma LoadTextStep(st: Loader, text: string)
    requires st.Valid()
    ensures var n := LineLength(text);
            LoadText(st, text) ==
            match ProcessLine(st, text[..n]) {
              case None => None
              case Some(st') =>
                if n < |text| && text[n] == NEWLINE then LoadText(st', text[n + 1..]) else Some(st')
            }
  {
  }
}
