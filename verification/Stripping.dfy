/** The two `strip` functions of src/common/string.cpp. */
module Stripping {
  import opened CStrings
  import opened StringTools

  /** `isspace` in the C locale. */
  predicate IsSpace(c: char) { c == ' ' || '\t' <= c <= '\r' }

  function TrimLeft(s: string): (r: string)
    ensures r == "" || !IsSpace(r[0])
    ensures |r| <= |s| && r == s[|s| - |r|..]
    ensures forall i :: 0 <= i < |s| - |r| ==> IsSpace(s[i])
  {
    if s != "" && IsSpace(s[0]) then TrimLeft(s[1..]) else s
  }

  function TrimRight(s: string): (r: string)
    ensures r == "" || !IsSpace(r[|r| - 1])
    ensures |r| <= |s| && r == s[..|r|]
    ensures forall i :: |r| <= i < |s| ==> IsSpace(s[i])
  {
    if s != "" && IsSpace(s[|s| - 1]) then TrimRight(s[..|s| - 1]) else s
  }

  /** `s` without leading and trailing white space. */
  function Trim(s: string): string { TrimRight(TrimLeft(s)) }

  predicate IsTrimmed(s: string) { s != "" && !IsSpace(s[0]) && !IsSpace(s[|s| - 1]) }

  predicate HasText(s: string) { exists i :: 0 <= i < |s| && !IsSpace(s[i]) }

  lemma TrimOfTrimmed(s: string)
    requires IsTrimmed(s)
    ensures Trim(s) == s && HasText(s)
  {
    assert TrimLeft(s) == s;
    assert TrimRight(s) == s;
  }

  lemma {:induction false} TrimLeftIs(s: string, head: nat)
    requires head <= |s| && (forall i :: 0 <= i < head ==> IsSpace(s[i])) && (head < |s| ==> !IsSpace(s[head]))
    ensures TrimLeft(s) == s[head..]
  {
    if head > 0 { TrimLeftIs(s[1..], head - 1); }
  }

  lemma {:induction false} TrimRightIs(s: string, end: nat)
    requires end <= |s| && (forall i :: end <= i < |s| ==> IsSpace(s[i])) && (end > 0 ==> !IsSpace(s[end - 1]))
    ensures TrimRight(s) == s[..end]
  {
    if end < |s| {
      TrimRightIs(s[..|s| - 1], end);
      assert s[..|s| - 1][..end] == s[..end];
    } else {
      assert s[..end] == s;
    }
  }

  lemma TrimIs(s: string, head: nat, end: nat)
    requires head < end <= |s| && !IsSpace(s[head]) && !IsSpace(s[end - 1])
    requires forall i :: 0 <= i < |s| && (i < head || end <= i) ==> IsSpace(s[i])
    ensures Trim(s) == s[head..end]
  {
    hide TrimLeft, TrimRight, IsSpace;
    var t := s[head..];
    TrimLeftIs(s, head);
    forall i | end - head <= i < |t| ensures IsSpace(t[i]) { assert t[i] == s[head + i]; }
    assert t[end - head - 1] == s[end - 1];
    TrimRightIs(t, end - head);
    assert t[..end - head] == s[head..end];
  }

  lemma TrimOfBlank(s: string)
    requires !HasText(s)
    ensures Trim(s) == ""
  {
    TrimLeftIs(s, |s|);
  }

  const WHITE_SPACE := " \t\n\U{0B}\U{0C}\r"

  lemma WhiteSpace(c: char)
    ensures IsSpace(c) <==> c in WHITE_SPACE
  {
    var ws := WHITE_SPACE;
    assert ws[0] == ' ' && ws[1] == '\t' && ws[2] == '\n' && ws[5] == '\r';
    assert ws[3] as int == 0x0B && ws[4] as int == 0x0C;
  }

  predicate IsWhite(s: string) { forall i :: 0 <= i < |s| ==> s[i] in WHITE_SPACE }

  /** Stripping takes off the white space around a text, and nothing of the text. */
  lemma TrimOfPadded(left: string, text: string, right: string)
    requires IsWhite(left) && IsWhite(right)
    requires text != "" ==> text[0] !in WHITE_SPACE && text[|text| - 1] !in WHITE_SPACE
    ensures Trim(left + text + right) == text
  {
    hide Trim, IsSpace;
    var s := left + text + right;
    forall i | 0 <= i < |s| && (i < |left| || |left + text| <= i) ensures IsSpace(s[i]) { WhiteSpace(s[i]); }
    if text == "" {
      TrimOfBlank(s);
    } else {
      WhiteSpace(s[|left|]);
      WhiteSpace(s[|left + text| - 1]);
      TrimIs(s, |left|, |left + text|);
      assert s[|left|..|left + text|] == text;
    }
  }

  /** `strip(std::string&)`; on a blank string the original reads outside it. */
  method Strip(str: string) returns (r: string)
    requires HasText(str)
    ensures r == Trim(str)
  {
    hide Trim, IsSpace;
    var head := 0;
    while IsSpace(str[head])
      invariant head < |str| && forall i :: 0 <= i < head ==> IsSpace(str[i])
      decreases |str| - head
    {
      head := head + 1;
    }
    var tail := |str| - 1;
    while IsSpace(str[tail]) && tail != head
      invariant head <= tail < |str| && forall i :: tail < i < |str| ==> IsSpace(str[i])
      decreases tail
    {
      tail := tail - 1;
    }
    r := str[head..head + (tail - head) + 1];
    TrimIs(str, head, tail + 1);
  }

  /** `strip(char*)`: cuts the buffer behind the last character that is not white space and returns
      the offset of the first. */
  method StripBuffer(str: array<char>, ghost text: string) returns (head: nat)
    requires HoldsText(str[..], 0, text)
    modifies str
    ensures HoldsText(str[..], head, Trim(text))
  {
    hide HoldsText, Trim;
    TextInBuffer(str[..], text);
    if str[0] == NUL {
      assert text == "";
      TrimOfBlank(text);
      return 0;
    }
    head := SkipSpaces(str, text);
    var last := LastCharacter(str, text);
    str[last + 1] := NUL;
    if head < |text| {
      TrimIs(text, head, last + 1);
      CellHeld(str[..], text, head, last + 1);
    } else {
      TrimOfBlank(text);
      CellHeld(str[..], text, head, head);
      assert text[head..head] == "";
    }
  }

  /** `while (isspace(*head)) ++head;` */
  method SkipSpaces(str: array<char>, ghost text: string) returns (head: nat)
    requires TextIn(str[..], text)
    ensures head <= |text| && forall i :: 0 <= i < head ==> IsSpace(text[i])
    ensures head < |text| ==> !IsSpace(text[head])
  {
    head := 0;
    while IsSpace(str[head])
      invariant head <= |text| && forall i :: 0 <= i < head ==> IsSpace(text[i])
      decreases |text| - head
    {
      head := head + 1;
    }
  }

  /** `while (isspace(*last) && last != str_) --last;` from the last character. */
  method LastCharacter(str: array<char>, ghost text: string) returns (last: nat)
    requires TextIn(str[..], text) && text != ""
    ensures last < |text| && forall i :: last < i < |text| ==> IsSpace(text[i])
    ensures last == 0 || !IsSpace(text[last])
  {
    var length := Length(str, text);
    last := length - 1;
    while IsSpace(str[last]) && last != 0
      invariant 0 <= last < |text| && forall i :: last < i < |text| ==> IsSpace(text[i])
      decreases last
    {
      last := last - 1;
    }
  }

  /** `strlen`. */
  method Length(str: array<char>, ghost text: string) returns (n: nat)
    requires TextIn(str[..], text)
    ensures n == |text|
  {
    n := 0;
    while str[n] != NUL
      invariant n <= |text|
      decreases |text| - n
    {
      n := n + 1;
    }
  }
}
