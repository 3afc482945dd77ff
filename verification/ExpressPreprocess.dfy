/** The declaration pass of src/express_parser/express_parser.cpp and its tokenizer. */
module ExpressPreprocess {
  import opened CStrings
  import opened ExpressSchema

  predicate IsSeparator(c: char) { c == ' ' || c == '\n' || c == '\t' || c == ';' }

  /** Reading a C string: everything from the end on, or from a NUL on, reads as NUL. */
  function At(content: string, i: nat): char { if i < |content| then content[i] else NUL }

  /** First offset from `i` on that holds no separator. */
  function SkipSeparators(content: string, i: nat): (j: nat)
    ensures j >= i && !IsSeparator(At(content, j))
    ensures forall k :: i <= k < j ==> IsSeparator(At(content, k))
    decreases |content| - i
  {
    if IsSeparator(At(content, i)) then SkipSeparators(content, i + 1) else i
  }

  predicate EndsToken(c: char) { IsSeparator(c) || c == NUL }

  /** First offset from `i` on that ends a token. */
  function TokenEnd(content: string, i: nat): (j: nat)
    ensures j >= i && EndsToken(At(content, j))
    ensures forall k :: i <= k < j ==> !EndsToken(At(content, k))
    ensures i <= |content| ==> j <= |content|
    decreases |content| - i
  {
    if EndsToken(At(content, i)) then i else TokenEnd(content, i + 1)
  }

  /** The tokens from offset `i` on: maximal pieces without separators, up to the end or the first NUL. */
  function Tokens(content: string, i: nat): seq<string>
    requires i <= |content|
    decreases |content| - i
  {
    var start := SkipSeparators(content, i);
    if At(content, start) == NUL then [] else
    var end := TokenEnd(content, start);
    [content[start..end]] + Tokens(content, end)
  }

  // ----- words and gaps -----

  /** A run of characters between tokens, possibly empty. */
  predicate IsGap(s: string) { forall k :: 0 <= k < |s| ==> s[k] in " \n\t;" }

  /** What can stand between two gaps. */
  predicate IsBare(s: string) { s != "" && forall k :: 0 <= k < |s| ==> s[k] !in " \n\t;\0" }

  predicate AllBare(ws: seq<string>) { forall i :: 0 <= i < |ws| ==> IsBare(ws[i]) }

  /** A gap before, between and behind `n` words; between two words it is not empty. */
  predicate AreGaps(gaps: seq<string>, n: nat) {
    && |gaps| == n + 1
    && (forall i :: 0 <= i <= n ==> IsGap(gaps[i]))
    && (forall i :: 0 < i < n ==> gaps[i] != "")
  }

  /** Words written out with gaps around them. */
  function LaidOut(ws: seq<string>, gaps: seq<string>): string
    requires |gaps| == |ws| + 1
  {
    if ws == [] then gaps[0] else gaps[0] + (ws[0] + LaidOut(ws[1..], gaps[1..]))
  }

  /** The end of the text, or a NUL and anything behind it. */
  predicate IsEnd(tail: string) { tail == "" || tail[0] == '\0' }

  lemma Characters(c: char)
    ensures IsSeparator(c) <==> c in " \n\t;"
    ensures EndsToken(c) <==> c in " \n\t;\0"
  {
    var gaps, ends := " \n\t;", " \n\t;\0";
    assert gaps[0] == ' ' && gaps[1] == '\n' && gaps[2] == '\t' && gaps[3] == ';';
    assert ends[0] == ' ' && ends[1] == '\n' && ends[2] == '\t' && ends[3] == ';' && ends[4] == NUL;
  }

  lemma {:induction false} TokensAreWords(content: string, i: nat)
    requires i <= |content|
    ensures AllBare(Tokens(content, i))
    decreases |content| - i
  {
    hide IsSeparator, EndsToken;
    var start := SkipSeparators(content, i);
    Characters(NUL);
    if At(content, start) != NUL {
      var end := TokenEnd(content, start);
      forall k | 0 <= k < end - start ensures content[start..end][k] !in " \n\t;\0" {
        assert content[start..end][k] == At(content, start + k);
        Characters(content[start + k]);
      }
      Characters(At(content, start));
      EndsOrSeparates(At(content, start));
      assert IsBare(content[start..end]);
      TokensAreWords(content, end);
    }
  }

  lemma EndsOrSeparates(c: char)
    ensures EndsToken(c) <==> IsSeparator(c) || c == NUL
  {
  }

  lemma {:induction false} SkipsTo(content: string, i: nat, j: nat)
    requires i <= j && !IsSeparator(At(content, j)) && forall k :: i <= k < j ==> IsSeparator(At(content, k))
    ensures SkipSeparators(content, i) == j
    decreases j - i
  {
    if i < j { SkipsTo(content, i + 1, j); }
  }

  lemma {:induction false} EndsAt(content: string, i: nat, j: nat)
    requires i <= j && EndsToken(At(content, j)) && forall k :: i <= k < j ==> !EndsToken(At(content, k))
    ensures TokenEnd(content, i) == j
    decreases j - i
  {
    if i < j { EndsAt(content, i + 1, j); }
  }

  /** What stands at `i` when the text from there on starts with `a`. */
  lemma StandsAt(content: string, i: nat, a: string, rest: string)
    requires i <= |content| && content[i..] == a + rest
    ensures i + |a| <= |content| && content[i + |a|..] == rest && content[i..i + |a|] == a
    ensures forall k :: i <= k < i + |a| ==> At(content, k) == a[k - i]
    ensures At(content, i + |a|) == At(rest, 0)
  {
    assert content[i + |a|..] == content[i..][|a|..];
    assert content[i..i + |a|] == content[i..][..|a|];
    forall k | i <= k < i + |a| ensures content[k] == a[k - i] { assert content[i..][k - i] == content[k]; }
    if rest != "" { assert content[i + |a|..][0] == rest[0]; }
  }

  lemma GapIsSkipped(content: string, i: nat, gap: string, rest: string)
    requires i <= |content| && IsGap(gap) && content[i..] == gap + rest && At(rest, 0) !in " \n\t;"
    ensures i + |gap| <= |content| && content[i + |gap|..] == rest && At(content, i + |gap|) == At(rest, 0)
    ensures SkipSeparators(content, i) == i + |gap|
  {
    StandsAt(content, i, gap, rest);
    hide IsSeparator, At;
    Characters(At(rest, 0));
    forall k | i <= k < i + |gap| ensures IsSeparator(At(content, k)) {
      assert gap[k - i] in " \n\t;";
      Characters(gap[k - i]);
    }
    SkipsTo(content, i, i + |gap|);
  }

  lemma WordIsToken(content: string, i: nat, w: string, rest: string)
    requires i <= |content| && IsBare(w) && content[i..] == w + rest && At(rest, 0) in " \n\t;\0"
    ensures i + |w| <= |content| && content[i..i + |w|] == w && content[i + |w|..] == rest
    ensures TokenEnd(content, i) == i + |w|
  {
    StandsAt(content, i, w, rest);
    hide EndsToken, At;
    Characters(At(rest, 0));
    forall k | i <= k < i + |w| ensures !EndsToken(At(content, k)) {
      assert w[k - i] !in " \n\t;\0";
      Characters(w[k - i]);
    }
    EndsAt(content, i, i + |w|);
  }

  lemma BareStart(w: string)
    requires IsBare(w)
    ensures w != "" && w[0] !in " \n\t;" && w[0] != NUL
  {
    assert w[0] !in " \n\t;\0";
    hide IsSeparator;
    Characters(w[0]);
    EndsOrSeparates(w[0]);
    Characters(NUL);
  }

  /** What follows a word that is laid out. */
  lemma AfterWord(ws: seq<string>, gaps: seq<string>, tail: string)
    requires AreGaps(gaps, |ws|) && IsEnd(tail) && (ws != [] ==> gaps[0] != "")
    ensures At(LaidOut(ws, gaps) + tail, 0) in " \n\t;\0"
  {
    var rest := LaidOut(ws, gaps) + tail;
    var ends := " \n\t;\0";
    assert ends[4] == NUL;
    if gaps[0] != "" {
      assert rest[0] == gaps[0][0];
      assert IsGap(gaps[0]);
      hide IsSeparator;
      Characters(gaps[0][0]);
      EndsOrSeparates(gaps[0][0]);
    } else {
      assert rest == tail;
    }
  }

  lemma OnlyGap(content: string, i: nat, gap: string, tail: string)
    requires i <= |content| && IsGap(gap) && IsEnd(tail) && content[i..] == gap + tail
    ensures Tokens(content, i) == []
  {
    hide IsGap, IsSeparator;
    NulIsNoGap();
    GapIsSkipped(content, i, gap, tail);
  }

  lemma NulIsNoGap()
    ensures NUL !in " \n\t;"
  {
  }

  lemma FirstWord(content: string, i: nat, gap: string, w: string, rest: string) returns (end: nat)
    requires i <= |content| && content[i..] == gap + (w + rest) && IsGap(gap) && IsBare(w)
    requires At(rest, 0) in " \n\t;\0"
    ensures end <= |content| && content[end..] == rest
    ensures Tokens(content, i) == [w] + Tokens(content, end)
  {
    hide Tokens, IsGap, IsBare;
    BareStart(w);
    assert At(w + rest, 0) == w[0];
    hide At;
    GapIsSkipped(content, i, gap, w + rest);
    WordIsToken(content, i + |gap|, w, rest);
    end := i + |gap| + |w|;
    TokensStep(content, i, i + |gap|, end);
  }

  lemma TokensStep(content: string, i: nat, start: nat, end: nat)
    requires i <= start <= end <= |content| && At(content, start) != NUL
    requires SkipSeparators(content, i) == start && TokenEnd(content, start) == end
    ensures Tokens(content, i) == [content[start..end]] + Tokens(content, end)
  {
    hide At;
  }

  lemma {:induction false} TokensOfLaidOut(
      content: string, i: nat, ws: seq<string>, gaps: seq<string>, tail: string)
    requires i <= |content| && AreGaps(gaps, |ws|) && AllBare(ws) && IsEnd(tail)
    requires content[i..] == LaidOut(ws, gaps) + tail
    ensures Tokens(content, i) == ws
    decreases ws
  {
    hide Tokens, IsBare, IsGap;
    if ws == [] {
      OnlyGap(content, i, gaps[0], tail);
    } else {
      var w, others, left := ws[0], ws[1..], gaps[1..];
      var rest := LaidOut(others, left) + tail;
      AfterWord(others, left, tail);
      assert content[i..] == gaps[0] + (w + rest);
      var end := FirstWord(content, i, gaps[0], w, rest);
      hide LaidOut;
      TokensOfLaidOut(content, end, others, left, tail);
      assert ws == [w] + others;
    }
  }

  /** However words are laid out, scanning gives the words back exactly when none is empty or holds a separator or NUL.
      What follows a NUL does not count. */
  lemma ScanningInvertsSpacing(ws: seq<string>, gaps: seq<string>, tail: string)
    requires AreGaps(gaps, |ws|) && IsEnd(tail)
    ensures Tokens(LaidOut(ws, gaps) + tail, 0) == ws
            <==> forall i :: 0 <= i < |ws| ==> ws[i] != "" && forall k :: 0 <= k < |ws[i]| ==> ws[i][k] !in " \n\t;\0"
  {
    hide Tokens;
    var text := LaidOut(ws, gaps) + tail;
    TokensAreWords(text, 0);
    assert text[0..] == text;
    if AllBare(ws) { TokensOfLaidOut(text, 0, ws, gaps, tail); }
  }

  class Token {
    const content: string
    var start: nat
    var end: nat

    constructor (content: string, start: nat)
      ensures this.content == content && this.start == start && end == start
    {
      this.content := content;
      this.start := start;
      end := start;
    }

    /** Both offsets lie within the text and no token crosses a NUL. */
    ghost predicate Valid()
      reads this
    {
      start <= end <= |content| && forall k :: start <= k < end ==> content[k] != NUL
    }

    predicate IsValid()
      reads this
    {
      At(content, start) != NUL
    }

    function Text(): string
      requires Valid()
      reads this
    {
      content[start..end]
    }

    /** `operator==`. */
    method Equals(other: string) returns (r: bool)
      requires Valid()
      requires forall k :: 0 <= k < |other| ==> other[k] != NUL
      ensures r == (Text() == other)
    {
      if |other| != end - start { return false; }
      var i := 0;
      while At(other, i) != NUL && At(content, start + i) != NUL
        invariant 0 <= i <= |other|
        invariant forall k :: 0 <= k < i ==> content[start + k] == other[k]
        decreases |other| - i
      {
        if At(content, start + i) != At(other, i) { return false; }
        i := i + 1;
      }
      assert i == |other|;
      return true;
    }

    method HasNext() returns (r: bool)
      requires Valid()
      ensures r == (Tokens(content, end) != [])
    {
      var i := end;
      while At(content, i) != NUL
        invariant end <= i
        invariant SkipSeparators(content, end) == SkipSeparators(content, i)
        decreases |content| - i
      {
        if !IsSeparator(At(content, i)) { return true; }
        i := i + 1;
      }
      return false;
    }

    /** `next`: the following token, or an invalid one when only separators are left. */
    method Next()
      requires Valid()
      modifies this
      ensures Valid()
      ensures var rest := Tokens(content, old(end));
              if rest == [] then !IsValid()
              else IsValid() && Text() == rest[0] && Tokens(content, end) == rest[1..]
      ensures old(end) <= end && (IsValid() ==> old(end) < end)
    {
      var i := end;
      while IsSeparator(At(content, i))
        invariant SkipSeparators(content, old(end)) == SkipSeparators(content, i)
        invariant old(end) <= i <= |content| && start == old(start) && end == old(end)
        decreases |content| - i
      {
        i := i + 1;
      }
      start := i;
      while !EndsToken(At(content, i))
        invariant old(end) <= start <= i <= |content|
        invariant start == SkipSeparators(content, old(end))
        invariant TokenEnd(content, start) == TokenEnd(content, i)
        invariant forall k :: start <= k < i ==> content[k] != NUL
        decreases |content| - i
      {
        i := i + 1;
      }
      end := i;
    }
  }

  // ----- declared names -----

  /** What the pass declares, and whether every keyword was followed by a name. */
  datatype Declarations = Declarations(types: seq<string>, entities: seq<string>, complete: bool)

  /** The names that follow TYPE and ENTITY, in scan order; a name is consumed with its keyword. */
  function Declare(tokens: seq<string>): Declarations {
    if tokens == [] then Declarations([], [], true)
    else if tokens[0] == "TYPE" || tokens[0] == "ENTITY" then
      if |tokens| == 1 then Declarations([], [], false)
      else
        var d := Declare(tokens[2..]);
        if tokens[0] == "TYPE" then d.(types := [tokens[1]] + d.types)
        else d.(entities := [tokens[1]] + d.entities)
    else Declare(tokens[1..])
  }

  /** A declaration as it is written: TYPE or ENTITY, a name, and words up to the next keyword. */
  datatype Clause = Clause(isType: bool, name: string, body: seq<string>)

  predicate NoKeyword(ws: seq<string>) { "TYPE" !in ws && "ENTITY" !in ws }

  predicate AreClauses(cs: seq<Clause>) { forall i :: 0 <= i < |cs| ==> NoKeyword(cs[i].body) }

  function ClauseWords(cs: seq<Clause>): seq<string> {
    if cs == [] then []
    else [if cs[0].isType then "TYPE" else "ENTITY"] + [cs[0].name] + (cs[0].body + ClauseWords(cs[1..]))
  }

  /** The names of one kind, in order. */
  function NamesOfKind(cs: seq<Clause>, isType: bool): seq<string> {
    if cs == [] then [] else (if cs[0].isType == isType then [cs[0].name] else []) + NamesOfKind(cs[1..], isType)
  }

  lemma {:induction false} DeclareSkips(front: seq<string>, rest: seq<string>)
    requires NoKeyword(front)
    ensures Declare(front + rest) == Declare(rest)
  {
    if front == [] {
      assert front + rest == rest;
    } else {
      assert front[0] in front;
      assert (front + rest)[1..] == front[1..] + rest;
      DeclareSkips(front[1..], rest);
    }
  }

  /** The kinds keep apart and a name is never taken for a keyword; `last` is empty or a keyword without a name. */
  lemma {:induction false} DeclareClauses(front: seq<string>, cs: seq<Clause>, last: seq<string>)
    requires NoKeyword(front) && AreClauses(cs) && last in [[], ["TYPE"], ["ENTITY"]]
    ensures Declare(front + (ClauseWords(cs) + last))
            == Declarations(NamesOfKind(cs, true), NamesOfKind(cs, false), last == [])
    decreases cs
  {
    DeclareSkips(front, ClauseWords(cs) + last);
    if cs == [] {
      assert ClauseWords(cs) + last == last;
    } else {
      hide Declare;
      var rest := cs[0].body + (ClauseWords(cs[1..]) + last);
      DeclareClauses(cs[0].body, cs[1..], last);
      WordsOfClause(cs, last);
      KeywordAndName(if cs[0].isType then "TYPE" else "ENTITY", cs[0].name, rest);
    }
  }

  lemma WordsOfClause(cs: seq<Clause>, last: seq<string>)
    requires cs != []
    ensures ClauseWords(cs) + last
            == [if cs[0].isType then "TYPE" else "ENTITY", cs[0].name] + (cs[0].body + (ClauseWords(cs[1..]) + last))
  {
  }

  lemma KeywordAndName(kind: string, name: string, rest: seq<string>)
    requires kind == "TYPE" || kind == "ENTITY"
    ensures var d := Declare(rest);
            Declare([kind, name] + rest)
            == if kind == "TYPE" then d.(types := [name] + d.types) else d.(entities := [name] + d.entities)
  {
    assert ([kind, name] + rest)[2..] == rest;
  }

  /** A text of declarations, laid out in any way, declares their names, each kind in order. */
  lemma DeclaredText(front: seq<string>, cs: seq<Clause>, last: seq<string>, gaps: seq<string>, tail: string)
    requires NoKeyword(front) && AreClauses(cs) && last in [[], ["TYPE"], ["ENTITY"]]
    requires var ws := front + (ClauseWords(cs) + last); AllBare(ws) && AreGaps(gaps, |ws|) && IsEnd(tail)
    ensures Declare(Tokens(LaidOut(front + (ClauseWords(cs) + last), gaps) + tail, 0))
            == Declarations(NamesOfKind(cs, true), NamesOfKind(cs, false), last == [])
  {
    hide Declare, Tokens, LaidOut, ClauseWords, NamesOfKind;
    ScanningInvertsSpacing(front + (ClauseWords(cs) + last), gaps, tail);
    DeclareClauses(front, cs, last);
  }

  lemma PairLaidOut(kind: string, n: string)
    ensures LaidOut([kind, n], ["", " ", ";"]) == kind + " " + n + ";"
  {
    var ws, gaps := [kind, n], ["", " ", ";"];
    assert ws[1..] == [n] && gaps[1..] == [" ", ";"] && [n][1..] == [] && [" ", ";"][1..] == [";"];
    assert LaidOut([], [";"]) == ";";
    assert LaidOut([n], [" ", ";"]) == " " + (n + ";");
    assert "" + (kind + (" " + (n + ";"))) == kind + " " + n + ";";
  }

  lemma PairIsBare(kind: string, n: string)
    requires kind == "TYPE" || kind == "ENTITY"
    requires n != "" && forall k :: 0 <= k < |n| ==> n[k] !in " \n\t;\0"
    ensures AllBare([kind, n]) && AreGaps(["", " ", ";"], 2)
  {
    assert IsBare(kind) && IsBare(n) && IsGap("") && IsGap(" ") && IsGap(";");
  }

  lemma PairIsScanned(kind: string, n: string)
    requires AllBare([kind, n]) && AreGaps(["", " ", ";"], 2)
    ensures Tokens(kind + " " + n + ";", 0) == [kind, n]
  {
    PairLaidOut(kind, n);
    hide LaidOut, AllBare, AreGaps, Tokens;
    var text := kind + " " + n + ";";
    assert text[0..] == text + "";
    TokensOfLaidOut(text, 0, [kind, n], ["", " ", ";"], "");
  }

  lemma PairDeclares(isType: bool, n: string)
    ensures Declare([if isType then "TYPE" else "ENTITY", n])
            == if isType then Declarations([n], [], true) else Declarations([], [n], true)
  {
    KeywordAndName(if isType then "TYPE" else "ENTITY", n, []);
    assert [if isType then "TYPE" else "ENTITY", n] + [] == [if isType then "TYPE" else "ENTITY", n];
    assert [n] + [] == [n];
  }

  /** The shortest text of a declaration: a keyword, a name and a semicolon. */
  lemma OneNameIsDeclared(isType: bool, n: string)
    requires n != "" && forall k :: 0 <= k < |n| ==> n[k] !in " \n\t;\0"
    ensures Declare(Tokens((if isType then "TYPE" else "ENTITY") + " " + n + ";", 0))
            == if isType then Declarations([n], [], true) else Declarations([], [n], true)
  {
    hide Declare, AreGaps, AllBare, Tokens;
    var kind := if isType then "TYPE" else "ENTITY";
    PairIsBare(kind, n);
    PairIsScanned(kind, n);
    PairDeclares(isType, n);
  }

  type Index = map<string, int>

  /** The index after the names were declared one by one, the first at position `base`. */
  function Indexed(index: Index, names: seq<string>, base: int): Index
    decreases names
  {
    if names == [] then index else Indexed(index[names[0] := base], names[1..], base + 1)
  }

  predicate Distinct(names: seq<string>) { forall i, j :: 0 <= i < j < |names| ==> names[i] != names[j] }

  /** An indexed name maps to a position that carries it, and no later position does. */
  lemma {:induction false} IndexIsLastPosition(index: Index, names: seq<string>, base: int, n: string)
    ensures var r := Indexed(index, names, base);
            if n in names then n in r && 0 <= r[n] - base < |names| && names[r[n] - base] == n
                               && forall k :: r[n] - base < k < |names| ==> names[k] != n
            else (n in r <==> n in index) && (n in r ==> r[n] == index[n])
    decreases names
  {
    if names != [] {
      IndexIsLastPosition(index[names[0] := base], names[1..], base + 1, n);
      assert n in names <==> n == names[0] || n in names[1..];
    }
  }

  /** The index agrees with linear search on every declared name if and only if no name is repeated. */
  lemma IndexAgreesWithSearch(names: seq<string>)
    ensures var r := Indexed(map[], names, 0);
            (forall n :: n in names ==> n in r && r[n] == FirstIndex(names, n)) <==> Distinct(names)
  {
    var r := Indexed(map[], names, 0);
    forall n | n in names ensures n in r && 0 <= r[n] < |names| && names[r[n]] == n {
      IndexIsLastPosition(map[], names, 0, n);
    }
    if Distinct(names) {
      forall n | n in names ensures r[n] == FirstIndex(names, n) {
        FoundWhenPresent(names, n);
      }
    } else {
      var i, j :| 0 <= i < j < |names| && names[i] == names[j];
      FoundWhenPresent(names, names[j]);
      IndexIsLastPosition(map[], names, 0, names[j]);
      assert FirstIndex(names, names[j]) <= i < j <= r[names[j]];
    }
  }

  lemma {:induction false} FoundWhenPresent(names: seq<string>, n: string)
    requires n in names
    ensures FirstIndex(names, n) < |names|
  {
    if names[0] != n { FoundWhenPresent(names[1..], n); }
  }

  /** The names in the schema and the two indexes, as values. */
  datatype Snapshot = Snapshot(types: seq<string>, entities: seq<string>, typeIndex: Index, entityIndex: Index) {
    function WithType(name: string): Snapshot {
      this.(types := types + [name], typeIndex := typeIndex[name := |types|])
    }

    function WithEntity(name: string): Snapshot {
      this.(entities := entities + [name], entityIndex := entityIndex[name := |entities|])
    }

    /** After all of `d` was declared. */
    function After(d: Declarations): Snapshot {
      Snapshot(types + d.types, entities + d.entities,
               Indexed(typeIndex, d.types, |types|), Indexed(entityIndex, d.entities, |entities|))
    }
  }

  lemma IndexOfOne(n: string)
    ensures Indexed(map[], [n], 0) == map[n := 0] && Indexed(map[], [], 0) == map[]
  {
    assert [n][1..] == [];
    assert Indexed(map[n := 0], [], 1) == map[n := 0];
  }

  lemma AfterOne(n: string)
    ensures Snapshot([], [], map[], map[]).After(Declarations([n], [], true)) == Snapshot([n], [], map[n := 0], map[])
    ensures Snapshot([], [], map[], map[]).After(Declarations([], [n], true)) == Snapshot([], [n], map[], map[n := 0])
  {
    hide Indexed;
    IndexOfOne(n);
    assert [] + [n] == [n];
  }

  /** In an empty schema that text leaves the one name, indexed at position 0. */
  lemma OneNameIsIndexed(isType: bool, n: string)
    requires n != "" && forall k :: 0 <= k < |n| ==> n[k] !in " \n\t;\0"
    ensures Snapshot([], [], map[], map[]).After(
              Declare(Tokens((if isType then "TYPE" else "ENTITY") + " " + n + ";", 0)))
            == if isType then Snapshot([n], [], map[n := 0], map[]) else Snapshot([], [n], map[], map[n := 0])
  {
    hide Declare, Tokens, Indexed, Snapshot.After;
    OneNameIsDeclared(isType, n);
    AfterOne(n);
  }

  /** Declaring the name after a keyword and going on is declaring everything. */
  lemma DeclareOne(st: Snapshot, tokens: seq<string>)
    requires |tokens| >= 2
    ensures tokens[0] == "TYPE" ==>
              && st.WithType(tokens[1]).After(Declare(tokens[2..])) == st.After(Declare(tokens))
              && Declare(tokens[2..]).complete == Declare(tokens).complete
    ensures tokens[0] == "ENTITY" ==>
              && st.WithEntity(tokens[1]).After(Declare(tokens[2..])) == st.After(Declare(tokens))
              && Declare(tokens[2..]).complete == Declare(tokens).complete
  {
    var d := Declare(tokens[2..]);
    assert st.types + [tokens[1]] + d.types == st.types + ([tokens[1]] + d.types);
    assert st.entities + [tokens[1]] + d.entities == st.entities + ([tokens[1]] + d.entities);
  }

  lemma DeclareNone(st: Snapshot, tokens: seq<string>)
    requires tokens == [] || (|tokens| == 1 && (tokens[0] == "TYPE" || tokens[0] == "ENTITY"))
    ensures st.After(Declare(tokens)) == st && Declare(tokens).complete == (tokens == [])
  {
  }

  /** The parser context: the schema and the two name indexes. */
  class ExpressParser {
    const schema: Schema
    var typeIdIndex: Index
    var entityIdIndex: Index

    constructor ()
      ensures fresh(schema) && fresh(schema.types) && fresh(schema.entities) && schema.Valid()
      ensures schema.typeNum == 0 && schema.entityNum == 0 && schema.owned == {}
      ensures typeIdIndex == map[] && entityIdIndex == map[]
    {
      schema := new Schema();
      typeIdIndex := map[];
      entityIdIndex := map[];
    }

    ghost function State(): (st: Snapshot)
      requires schema.Valid()
      reads this, schema, schema.types, schema.entities
      ensures |st.types| == schema.typeNum && |st.entities| == schema.entityNum
    {
      Snapshot(schema.TypeNames(), schema.EntityNames(), typeIdIndex, entityIdIndex)
    }

    method DeclareType(name: string)
      requires schema.Valid() && schema.typeNum < MAX_TYPE_NUM
      modifies this, schema, schema.types
      ensures schema.Valid() && State() == old(State()).WithType(name)
      ensures old(schema.Untouched()) ==> schema.Untouched()
      ensures fresh(schema.owned - old(schema.owned))
    {
      schema.AddType(name);
      typeIdIndex := typeIdIndex[name := schema.typeNum - 1];
    }

    method DeclareEntity(name: string)
      requires schema.Valid() && schema.entityNum < MAX_ENTITY_NUM
      modifies this, schema, schema.entities
      ensures schema.Valid() && State() == old(State()).WithEntity(name)
      ensures old(schema.Untouched()) ==> schema.Untouched()
      ensures fresh(schema.owned - old(schema.owned))
    {
      schema.AddEntity(name);
      entityIdIndex := entityIdIndex[name := schema.entityNum - 1];
    }

    /** One turn of the pass; `stopped` where the original exits because a name is missing. */
    method DeclareNext(token: Token) returns (stopped: bool)
      requires token.Valid() && schema.Valid() && Tokens(token.content, token.end) != []
      requires |State().After(Declare(Tokens(token.content, token.end))).types| <= MAX_TYPE_NUM
      requires |State().After(Declare(Tokens(token.content, token.end))).entities| <= MAX_ENTITY_NUM
      modifies this, schema, schema.types, schema.entities, token
      ensures token.Valid() && schema.Valid() && old(token.end) <= token.end
      ensures old(schema.Untouched()) ==> schema.Untouched()
      ensures fresh(schema.owned - old(schema.owned))
      ensures var d := Declare(Tokens(token.content, old(token.end)));
              if stopped then !d.complete && State() == old(State()).After(d)
              else
                var rest := Declare(Tokens(token.content, token.end));
                && old(token.end) < token.end
                && rest.complete == d.complete
                && State().After(rest) == old(State()).After(d)
    {
      hide Tokens, Declare, Indexed, Schema.Untouched;
      ghost var st, tokens := State(), Tokens(token.content, token.end);
      token.Next();
      var isType := token.Equals("TYPE");
      var isEntity := token.Equals("ENTITY");
      if isType || isEntity {
        token.Next();
        if !token.IsValid() {
          DeclareNone(st, tokens);
          return true;
        }
        var name := token.Text();
        DeclareOne(st, tokens);
        if isType { DeclareType(name); } else { DeclareEntity(name); }
      } else {
        SkipWord(tokens);
      }
      return false;
    }

    /** `preprocess`; `completed` is false where the original exits because a name is missing. */
    method Preprocess(text: string) returns (completed: bool)
      requires schema.Valid()
      requires |State().After(Declare(Tokens(text, 0))).types| <= MAX_TYPE_NUM
      requires |State().After(Declare(Tokens(text, 0))).entities| <= MAX_ENTITY_NUM
      modifies this, schema, schema.types, schema.entities
      ensures schema.Valid() && (old(schema.Untouched()) ==> schema.Untouched())
      ensures fresh(schema.owned - old(schema.owned))
      ensures completed == Declare(Tokens(text, 0)).complete
      ensures State() == old(State()).After(Declare(Tokens(text, 0)))
    {
      hide Tokens, Declare, Indexed, Schema.Untouched;
      ghost var d, st := Declare(Tokens(text, 0)), State();
      var token := new Token(text, 0);
      var more := token.HasNext();
      while more
        invariant fresh(token) && token.Valid() && token.content == text && schema.Valid()
        invariant old(schema.Untouched()) ==> schema.Untouched()
        invariant fresh(schema.owned - old(schema.owned))
        invariant more == (Tokens(text, token.end) != [])
        invariant Declare(Tokens(text, token.end)).complete == d.complete
        invariant State().After(Declare(Tokens(text, token.end))) == st.After(d)
        decreases |text| - token.end
      {
        var stopped := DeclareNext(token);
        if stopped { return false; }
        more := token.HasNext();
      }
      DeclareNone(State(), []);
      return true;
    }
  }

  lemma SkipWord(tokens: seq<string>)
    requires tokens != [] && tokens[0] != "TYPE" && tokens[0] != "ENTITY"
    ensures Declare(tokens) == Declare(tokens[1..])
  {
  }
}
