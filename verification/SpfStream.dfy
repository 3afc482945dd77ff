/** The character stream under the decoder, and the decoding loops as they run on it. */
module SpfStream {
  import opened CharacterCodes
  import opened CharacterDecoder

  predicate IsLineBreak(c: Byte) { c == LINE_FEED || c == CARRIAGE_RETURN }

  /** The characters of `cs` that are not line breaks. */
  function Visible(cs: seq<Byte>): seq<Byte> {
    if cs == [] then [] else (if IsLineBreak(cs[0]) then [] else [cs[0]]) + Visible(cs[1..])
  }

  lemma {:induction false} VisibleOfBoth(a: seq<Byte>, b: seq<Byte>)
    ensures Visible(a + b) == Visible(a) + Visible(b)
  {
    if a == [] {
      assert a + b == b;
    } else {
      assert (a + b)[1..] == a[1..] + b;
      VisibleOfBoth(a[1..], b);
    }
  }

  /** Wherever a line feed or a carriage return stands, it is not seen; any other character is, in its place. */
  lemma LineBreaksAreInvisible(a: seq<Byte>, c: Byte, b: seq<Byte>)
    ensures Visible([]) == []
    ensures Visible(a + [c] + b) == Visible(a) + (if c == 0x0A || c == 0x0D then [] else [c]) + Visible(b)
  {
    VisibleOfBoth(a + [c], b);
    VisibleOfBoth(a, [c]);
    assert [c][1..] == [];
  }

  /** What a reader at offset `p` gets to see: the character there, then the visible ones after it. */
  function Seen(buffer: seq<Byte>, p: nat): seq<Byte>
    requires p <= |buffer|
  {
    if p == |buffer| then [] else [buffer[p]] + Visible(buffer[p + 1..])
  }

  /** Offset of the first visible character from `p` on. */
  function SkipBreaks(buffer: seq<Byte>, p: nat): (q: nat)
    requires p <= |buffer|
    ensures p <= q <= |buffer|
    ensures q == |buffer| || !IsLineBreak(buffer[q])
    ensures Seen(buffer, q) == Visible(buffer[p..])
    decreases |buffer| - p
  {
    if p == |buffer| || !IsLineBreak(buffer[p]) then
      p
    else
      SkipBreaks(buffer, p + 1)
  }

  lemma SeenAt(buffer: seq<Byte>, p: nat)
    requires p <= |buffer|
    ensures p == |buffer| ==> Seen(buffer, p) == []
    ensures p < |buffer| ==> var cs := Seen(buffer, p);
                             cs != [] && cs[0] == buffer[p] && cs[1..] == Visible(buffer[p + 1..])
  {
  }

  lemma SeenNext(buffer: seq<Byte>, p: nat, n: nat)
    requires p <= |buffer| && 1 <= n <= |Seen(buffer, p)|
    ensures p < |buffer| && |Seen(buffer, SkipBreaks(buffer, p + 1))| == |Seen(buffer, p)| - 1
    ensures Seen(buffer, p)[n..] == Seen(buffer, SkipBreaks(buffer, p + 1))[n - 1..]
  {
    hide Visible, Seen, SkipBreaks;
    SeenAt(buffer, p);
    var cs := Seen(buffer, p);
    assert cs[n..] == cs[1..][n - 1..];
  }

  /** The offset after `n` of the characters seen from `p` were consumed. */
  function OffsetAfter(buffer: seq<Byte>, p: nat, n: nat): (q: nat)
    requires p <= |buffer| && n <= |Seen(buffer, p)|
    ensures p + n <= q <= |buffer| && Seen(buffer, q) == Seen(buffer, p)[n..]
    decreases n
  {
    if n == 0 then p
    else
      SeenNext(buffer, p, n);
      OffsetAfter(buffer, SkipBreaks(buffer, p + 1), n - 1)
  }

  /** The offset at which reading from `p` stops when it leaves `rest` unread. */
  function StopOffset(buffer: seq<Byte>, p: nat, rest: seq<Byte>): (q: nat)
    requires p <= |buffer| && |rest| <= |Seen(buffer, p)|
  {
    OffsetAfter(buffer, p, |Seen(buffer, p)| - |rest|)
  }

  lemma {:induction false} OffsetStep(buffer: seq<Byte>, p: nat, n: nat)
    requires p <= |buffer| && n < |Seen(buffer, p)|
    ensures OffsetAfter(buffer, p, n) < |buffer|
    ensures OffsetAfter(buffer, p, n + 1) == SkipBreaks(buffer, OffsetAfter(buffer, p, n) + 1)
    decreases n
  {
    hide Visible, Seen, SkipBreaks;
    SeenAt(buffer, p);
    SeenAt(buffer, OffsetAfter(buffer, p, n));
    if n > 0 { OffsetStep(buffer, SkipBreaks(buffer, p + 1), n - 1); }
  }

  /** Reading stands at `q` with `rest` unread, having started at `p`. */
  ghost predicate StandsAt(buffer: seq<Byte>, p: nat, q: nat, rest: seq<Byte>) {
    p <= |buffer| && q <= |buffer| && Seen(buffer, q) == rest
    && |rest| <= |Seen(buffer, p)| && q == StopOffset(buffer, p, rest)
  }

  lemma StandsAtStart(buffer: seq<Byte>, p: nat)
    requires p <= |buffer|
    ensures StandsAt(buffer, p, p, Seen(buffer, p))
  {
  }

  lemma StandsAtNext(buffer: seq<Byte>, p: nat, q: nat)
    requires q < |buffer| && StandsAt(buffer, p, q, Seen(buffer, q))
    ensures StandsAt(buffer, p, SkipBreaks(buffer, q + 1), Seen(buffer, SkipBreaks(buffer, q + 1)))
  {
    hide Visible, OffsetAfter, Seen;
    SeenAt(buffer, q);
    OffsetStep(buffer, p, |Seen(buffer, p)| - |Seen(buffer, q)|);
  }

  datatype Skipper = Skipper(parseState: bv32, hexCount: HexCount)

  datatype SkipTurn = SkipNext(sk: Skipper) | SkipStop | SkipReject

  /** One more digit was passed. */
  function CountOnly(sk: Skipper): Skipper {
    var count := sk.hexCount + 1;
    var s := Plus(sk.parseState, Hex(count));
    if NumeralComplete(s, count) then Skipper(AfterNumeral(s, count), 0) else Skipper(s, count)
  }

  /** One turn of `skip`, the second copy of the loop without text and code pages. */
  function SkipStep(sk: Skipper, c: Byte): SkipTurn {
    var s := sk.parseState;
    if ExpectsCharacter(s) then SkipNext(sk.(parseState := 0))
    else if c == QUOTE && s == 0 then SkipNext(sk.(parseState := APOSTROPHE))
    else if c == SOLIDUS && s == 0 then SkipNext(sk.(parseState := FIRST_SOLIDUS))
    else if c == SOLIDUS && ExpectsSolidus(s) then
      if EndsDirective(s) then SkipNext(Skipper(0, 0)) else SkipNext(sk.(parseState := AfterSolidus(s)))
    else if Keyword(s, c).Some? then SkipNext(sk.(parseState := Plus(s, Keyword(s, c).value)))
    else if IsValidAlphabetDefinition(c) && ExpectsAlphabetDefinition(s) then
      SkipNext(sk.(parseState := Plus(s, ALPHABET_DEFINITION)))
    else if c == LETTER_S && ExpectsAfterSolidus(s) then SkipNext(sk.(parseState := Plus(s, PAGE)))
    else if IsHexadecimal(c) && ExpectsHex(s) then SkipNext(CountOnly(sk))
    else if InvalidToken(s, c) then
      if s == APOSTROPHE && c != QUOTE then SkipStop else SkipReject
    else SkipNext(Skipper(0, 0))
  }

  datatype SkipOutcome = Skipped(rest: seq<Byte>) | SkipRejected(rest: seq<Byte>)

  function SkipScan(cs: seq<Byte>, sk: Skipper): SkipOutcome {
    if cs == [] || cs[0] == 0 then Skipped(cs)
    else
      match SkipStep(sk, cs[0])
      case SkipNext(sk') => SkipScan(cs[1..], sk')
      case SkipStop => Skipped(cs)
      case SkipReject => SkipRejected(cs)
  }

  lemma SkipScanTurn(cs: seq<Byte>, sk: Skipper)
    ensures SkipScan(cs, sk) ==
            if cs == [] || cs[0] == 0 then Skipped(cs)
            else match SkipStep(sk, cs[0]) {
              case SkipNext(sk') => SkipScan(cs[1..], sk')
              case SkipStop => Skipped(cs)
              case SkipReject => SkipRejected(cs)
            }
  {
  }

  /** `IfcSpfStream`: a cursor over a buffer that nothing writes to. */
  class Stream {
    const buffer: seq<Byte>
    var ptr: nat
    var eof: bool

    constructor (data: seq<Byte>)
      ensures buffer == data && ptr == 0 && !eof
    {
      buffer := data;
      ptr := 0;
      eof := false;
    }

    ghost predicate Valid()
      reads this
    {
      ptr <= |buffer|
    }

    /** `peek_at`; the position behind the last character reads as NUL. */
    function PeekAt(p: nat): Byte {
      if p < |buffer| then buffer[p] else 0
    }

    /** `increment_at`: to the next character that is not a line break. */
    method IncrementAt(p: nat) returns (q: nat)
      requires p < |buffer|
      ensures q == SkipBreaks(buffer, p + 1)
      decreases |buffer| - p
    {
      q := p + 1;
      if q == |buffer| { return; }
      var current := PeekAt(q);
      if current == LINE_FEED || current == CARRIAGE_RETURN { q := IncrementAt(q); }
    }

    method Inc()
      requires ptr < |buffer|
      modifies this
      ensures ptr == SkipBreaks(buffer, old(ptr) + 1)
      ensures eof == (old(eof) || ptr == |buffer|)
      decreases |buffer| - ptr
    {
      ptr := ptr + 1;
      if ptr == |buffer| {
        eof := true;
        return;
      }
      var current := PeekAt(ptr);
      if current == LINE_FEED || current == CARRIAGE_RETURN { Inc(); }
    }

    /** `peek`: at the offset, or at the cursor. */
    function Peek(pure: bool, offset: nat): Byte
      reads this
    {
      PeekAt(if pure then offset else ptr)
    }

    /** `increment`. */
    method Increment(pure: bool, offset: nat) returns (offset': nat)
      requires Valid() && offset <= |buffer| && (if pure then offset else ptr) < |buffer|
      modifies this
      ensures if pure then offset' == SkipBreaks(buffer, offset + 1) && ptr == old(ptr) && eof == old(eof)
              else offset' == offset && ptr == SkipBreaks(buffer, old(ptr) + 1) && eof == (old(eof) || ptr == |buffer|)
    {
      offset' := offset;
      if pure { offset' := IncrementAt(offset); } else { Inc(); }
    }

    /** `pure_impure_helper::get` up to the conversion of the text. With `pure` the cursor is left alone
        and a local offset moves instead. The locals of the loop are one `Decoder`. */
    method Get(t: CodePages, pure: bool, offset: nat) returns (outcome: Outcome, offset': nat)
      requires Valid() && offset <= |buffer|
      modifies this
      ensures var start := if pure then offset else old(ptr);
              outcome == Scan(t, Seen(buffer, start), START)
              && StandsAt(buffer, start, if pure then offset' else ptr, outcome.rest)
      ensures Valid()
      ensures if pure then ptr == old(ptr) && eof == old(eof)
              else offset' == offset && eof == (old(eof) || old(ptr) < ptr == |buffer|)
    {
      hide Step, Scan, Seen, Visible, StandsAt;
      var st := START;
      offset' := offset;
      ghost var start := if pure then offset else ptr;
      StandsAtStart(buffer, start);
      while Peek(pure, offset') != 0
        invariant Valid() && offset' <= |buffer|
        invariant var here := if pure then offset' else ptr;
                  && StandsAt(buffer, start, here, Seen(buffer, here))
                  && Scan(t, Seen(buffer, start), START) == Scan(t, Seen(buffer, here), st)
        invariant if pure then ptr == old(ptr) && eof == old(eof)
                  else offset' == offset && old(ptr) <= ptr && eof == (old(eof) || old(ptr) < ptr == |buffer|)
        decreases |buffer| - (if pure then offset' else ptr)
      {
        var here := if pure then offset' else ptr;
        SeenAt(buffer, here);
        ScanTurn(t, Seen(buffer, here), st);
        StandsAtNext(buffer, start, here);
        match Step(t, st, Peek(pure, offset')) {
          case Next(st') => st := st';
          case Stop => return Finished(st.builder + [QUOTE], Seen(buffer, here)), offset';
          case Reject => return Rejected(Seen(buffer, here)), offset';
          case NotDefined => return Undefined(Seen(buffer, here)), offset';
        }
        offset' := Increment(pure, offset');
      }
      var here := if pure then offset' else ptr;
      SeenAt(buffer, here);
      ScanEnd(t, Seen(buffer, here), st);
      return Finished(st.builder + [QUOTE], Seen(buffer, here)), offset';
    }

    /** `IfcCharacterDecoder::skip`. */
    method Skip() returns (outcome: SkipOutcome)
      requires Valid()
      modifies this
      ensures outcome == SkipScan(Seen(buffer, old(ptr)), Skipper(0, 0))
              && StandsAt(buffer, old(ptr), ptr, outcome.rest)
      ensures Valid() && eof == (old(eof) || old(ptr) < ptr == |buffer|)
    {
      hide SkipStep, SkipScan, Seen, Visible, StandsAt;
      var sk := Skipper(0, 0);
      StandsAtStart(buffer, ptr);
      while PeekAt(ptr) != 0
        invariant Valid() && StandsAt(buffer, old(ptr), ptr, Seen(buffer, ptr))
        invariant SkipScan(Seen(buffer, old(ptr)), Skipper(0, 0)) == SkipScan(Seen(buffer, ptr), sk)
        invariant old(ptr) <= ptr && eof == (old(eof) || old(ptr) < ptr == |buffer|)
        decreases |buffer| - ptr
      {
        SeenAt(buffer, ptr);
        SkipScanTurn(Seen(buffer, ptr), sk);
        StandsAtNext(buffer, old(ptr), ptr);
        match SkipStep(sk, PeekAt(ptr)) {
          case SkipNext(sk') => sk := sk';
          case SkipStop => return Skipped(Seen(buffer, ptr));
          case SkipReject => return SkipRejected(Seen(buffer, ptr));
        }
        Inc();
      }
      SeenAt(buffer, ptr);
      SkipScanTurn(Seen(buffer, ptr), sk);
      return Skipped(Seen(buffer, ptr));
    }
  }
}
