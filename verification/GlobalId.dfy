/** The 22-character GlobalId of src/ifcparse/IfcGlobalId.cpp. */
module GlobalId {
  import opened CharacterCodes
  import opened Numerals
  import opened Options

  // ----- the alphabet -----

  /** `chars[d]` of "0123456789ABC...XYZabc...xyz_$". */
  function Digit(d: nat): (c: Byte)
    requires d < 64
    ensures c != 0 && DigitValue(c) == d
  {
    if d < 10 then 0x30 + d
    else if d < 36 then 0x41 + d - 10
    else if d < 62 then 0x61 + d - 36
    else if d == 62 then 0x5F
    else 0x24
  }

  /** Offset `strchr` finds in the table, -1 for none. The terminator counts: NUL is at offset 64. */
  function DigitValue(c: Byte): (d: int)
    ensures -1 <= d <= 64
  {
    if 0x30 <= c <= 0x39 then c - 0x30
    else if 0x41 <= c <= 0x5A then c - 0x41 + 10
    else if 0x61 <= c <= 0x7A then c - 0x61 + 36
    else if c == 0x5F then 62
    else if c == 0x24 then 63
    else if c == 0 then 64
    else -1
  }

  lemma DigitOfValue(c: Byte)
    requires InAlphabet(c)
    ensures Digit(DigitValue(c)) == c
  {
  }

  predicate InAlphabet(c: Byte) { 0 <= DigitValue(c) < 64 }

  predicate AllInAlphabet(s: seq<Byte>) { forall i :: 0 <= i < |s| ==> InAlphabet(s[i]) }

  // ----- numerals -----

  function Pow64(n: nat): (p: nat)
    ensures p > 0
  {
    if n == 0 then 1 else 64 * Pow64(n - 1)
  }

  /** The number a string of digits denotes, most significant digit first. */
  function Value(s: seq<Byte>): (v: nat)
    requires AllInAlphabet(s)
    ensures v < Pow64(|s|)
  {
    if s == [] then 0 else 64 * Value(s[..|s| - 1]) + DigitValue(s[|s| - 1])
  }

  /** The `l` lowest digits of `v`, least significant first, as the loop produces them. */
  function LowDigits(v: nat, l: nat): (r: seq<Byte>)
    ensures |r| == l
  {
    if l == 0 then [] else [Digit(v % 64)] + LowDigits(v / 64, l - 1)
  }

  function Reversed(s: seq<Byte>): (r: seq<Byte>)
    ensures |r| == |s|
    ensures forall i :: 0 <= i < |s| ==> r[i] == s[|s| - 1 - i]
  {
    if s == [] then [] else Reversed(s[1..]) + [s[0]]
  }

  /** `v` written with exactly `l` digits. */
  function Numeral(v: nat, l: nat): (r: seq<Byte>)
    ensures |r| == l
  {
    Reversed(LowDigits(v, l))
  }

  lemma NumeralStep(v: nat, l: nat)
    requires l > 0
    ensures Numeral(v, l) == Numeral(v / 64, l - 1) + [Digit(v % 64)]
  {
    assert LowDigits(v, l)[1..] == LowDigits(v / 64, l - 1);
  }

  /** A numeral of `l` digits denotes the number, for every v < 64^l. */
  lemma {:induction false} NumeralDenotes(v: nat, l: nat)
    requires v < Pow64(l)
    ensures AllInAlphabet(Numeral(v, l)) && Value(Numeral(v, l)) == v
  {
    if l > 0 {
      hide LowDigits, Numeral, DigitValue, Digit;
      var front, last := Numeral(v / 64, l - 1), Digit(v % 64);
      NumeralStep(v, l);
      NumeralDenotes(v / 64, l - 1);
      assert (front + [last])[..|front + [last]| - 1] == front;
    } else {
      assert Numeral(v, l) == [];
    }
  }

  lemma ValueStep(front: seq<Byte>, last: Byte)
    requires AllInAlphabet(front + [last])
    ensures AllInAlphabet(front) && InAlphabet(last)
    ensures Value(front + [last]) == 64 * Value(front) + DigitValue(last)
  {
    hide DigitValue;
    var s := front + [last];
    assert s[..|front|] == front && s[|front|] == last;
    assert forall i :: 0 <= i < |front| ==> front[i] == s[i];
  }

  /** Every string over the alphabet is the numeral of the number it denotes. */
  lemma {:induction false} NumeralOfValue(s: seq<Byte>)
    requires AllInAlphabet(s)
    ensures Numeral(Value(s), |s|) == s
  {
    hide LowDigits, DigitValue, Digit, Value, AllInAlphabet, InAlphabet;
    if s == [] {
      assert Numeral(Value(s), 0) == [];
    } else {
      hide Numeral;
      var front, last := s[..|s| - 1], s[|s| - 1];
      assert s == front + [last];
      ValueStep(front, last);
      NumeralOfValue(front);
      LastDigitSplits(Value(front), last, |s|);
    }
  }

  lemma LastDigitSplits(high: nat, last: Byte, l: nat)
    requires InAlphabet(last) && l > 0
    ensures Numeral(64 * high + DigitValue(last), l) == Numeral(high, l - 1) + [last]
  {
    hide LowDigits, Numeral, DigitValue, Digit;
    NumeralStep(64 * high + DigitValue(last), l);
    DigitOfValue(last);
    Digits64(high, DigitValue(last));
  }

  lemma Digits64(high: nat, low: nat)
    requires low < 64
    ensures (64 * high + low) / 64 == high && (64 * high + low) % 64 == low
  {
  }

  lemma {:induction false} LowDigitsOfZero(l: nat)
    ensures LowDigits(0, l) == seq(l, _ => 0x30)
  {
    if l > 0 { LowDigitsOfZero(l - 1); }
  }

  /** `base64`: terminates with exactly `l` digits because v < 64^l. */
  method Base64(v: Word, l: nat) returns (r: seq<Byte>)
    requires v < Pow64(l)
    ensures r == Numeral(v, l)
  {
    hide Digit, Reversed;
    var low: seq<Byte> := [];
    var rest: nat := v;
    while rest != 0
      invariant |low| <= l && rest < Pow64(l - |low|)
      invariant LowDigits(v, l) == low + LowDigits(rest, l - |low|)
      decreases rest
    {
      assert l - |low| > 0;
      assert low + LowDigits(rest, l - |low|) == low + [Digit(rest % 64)] + LowDigits(rest / 64, l - |low| - 1);
      low := low + [Digit(rest % 64)];
      rest := rest / 64;
    }
    LowDigitsOfZero(l - |low|);
    while |low| != l
      invariant |low| <= l
      invariant LowDigits(v, l) == low + seq(l - |low|, _ => 0x30)
      decreases l - |low|
    {
      low := low + [0x30];
    }
    r := Reversed(low);
  }

  // ----- `from_base64` -----

  /** `r *= 64; r += digit` in 32-bit arithmetic, over all of `s`; None where the original throws. */
  function Accumulate(r: Word, s: seq<Byte>): Option<Word>
    decreases s
  {
    if s == [] then Some(r)
    else if DigitValue(s[0]) == -1 then None
    else Accumulate(PushDigit(r, DigitValue(s[0])), s[1..])
  }

  function PushDigit(r: Word, d: nat): Word { (r * 64 % 0x1_0000_0000 + d) % 0x1_0000_0000 }

  lemma PushDigitIsExact(r: Word, d: nat)
    requires 64 * r + d < 0x1_0000_0000
    ensures PushDigit(r, d) == 64 * r + d
  {
  }

  function LeadingZeros(s: seq<Byte>): (n: nat)
    ensures n <= |s|
    ensures n < |s| ==> s[n] != 0x30
  {
    if s == [] || s[0] != 0x30 then 0 else 1 + LeadingZeros(s[1..])
  }

  lemma {:induction false} LeadingZerosDoNotCount(s: seq<Byte>)
    ensures Accumulate(0, s) == Accumulate(0, s[LeadingZeros(s)..])
  {
    if s == [] || s[0] != 0x30 {
      assert s[0..] == s;
    } else {
      LeadingZerosDoNotCount(s[1..]);
      assert s[1..][LeadingZeros(s[1..])..] == s[LeadingZeros(s)..];
    }
  }

  method FromBase64(s: seq<Byte>) returns (r: Option<Word>)
    ensures r == Accumulate(0, s)
  {
    var zeros := LeadingZeros(s);   // find_first_not_of('0')
    var v: Word := 0;
    LeadingZerosDoNotCount(s);
    for i := zeros to |s|
      invariant Accumulate(0, s[zeros..]) == Accumulate(v, s[i..])
    {
      v := v * 64 % 0x1_0000_0000;
      var offset := DigitValue(s[i]);
      if offset == -1 { return None; }
      v := (v + offset) % 0x1_0000_0000;
      assert s[i..][1..] == s[i + 1..];
    }
    return Some(v);
  }

  lemma Pow64Table()
    ensures Pow64(0) == 1 && Pow64(1) == 64 && Pow64(2) == 0x1000 && Pow64(3) == 0x4_0000
    ensures Pow64(4) == 0x100_0000 && Pow64(5) == 0x4000_0000
  {
    assert Pow64(2) == 0x1000;
    assert Pow64(4) == 0x100_0000;
  }

  lemma ValueAppend(p: seq<Byte>, c: Byte)
    requires AllInAlphabet(p) && InAlphabet(c) && |p| < 5
    ensures AllInAlphabet(p + [c]) && Value(p + [c]) == 64 * Value(p) + DigitValue(c) < 0x1_0000_0000
  {
    Pow64Table();
    assert (p + [c])[..|p|] == p;
  }

  /** Five digits or fewer never overflow. */
  lemma {:induction false} AccumulateIsValue(p: seq<Byte>, s: seq<Byte>)
    requires AllInAlphabet(p) && AllInAlphabet(s) && |p + s| <= 5
    requires Value(p) < 0x1_0000_0000
    ensures AllInAlphabet(p + s) && Value(p + s) < 0x1_0000_0000
    ensures Accumulate(Value(p), s) == Some(Value(p + s))
    decreases |s|
  {
    if s == [] {
      assert p + s == p;
    } else {
      hide DigitValue, Value, PushDigit;
      var q := p + [s[0]];
      assert InAlphabet(s[0]);
      ValueAppend(p, s[0]);
      PushDigitIsExact(Value(p), DigitValue(s[0]));
      hide InAlphabet;
      assert q + s[1..] == p + s;
      AccumulateIsValue(q, s[1..]);
    }
  }

  /** `from_base64` inverts `base64` on the lengths the GlobalId uses. */
  lemma FromBase64Inverts(s: seq<Byte>)
    requires AllInAlphabet(s) && |s| <= 4
    ensures Value(s) < 0x1_0000_0000 && Accumulate(0, s) == Some(Value(s))
  {
    AccumulateIsValue([], s);
    assert [] + s == s;
  }

  // ----- `compress` -----

  type Bytes16 = v: seq<Byte> | |v| == 16 witness seq(16, _ => 0)

  /** The number a string of bytes denotes, most significant byte first. */
  function BigEndian(v: seq<Byte>): nat {
    if v == [] then 0 else 256 * BigEndian(v[..|v| - 1]) + v[|v| - 1]
  }

  /** Three bytes as one number, most significant first. */
  function Pack(a: nat, b: nat, c: nat): nat { a * 0x1_0000 + b * 0x100 + c }

  function Triple(v: Bytes16, k: nat): (d: Word)
    requires k < 5
    ensures d < 0x100_0000
  {
    Pack(v[3 * k + 1], v[3 * k + 2], v[3 * k + 3])
  }

  /** The first byte as two digits, then `k` groups of three bytes as four digits each. */
  function CompressedUpTo(v: Bytes16, k: nat): (r: seq<Byte>)
    requires k <= 5
    ensures |r| == 2 + 4 * k
  {
    if k == 0 then Numeral(v[0], 2) else CompressedUpTo(v, k - 1) + Numeral(Triple(v, k - 1), 4)
  }

  function Compressed(v: Bytes16): (r: seq<Byte>)
    ensures |r| == 22
  {
    CompressedUpTo(v, 5)
  }

  method Compress(v: array<Byte>) returns (r: seq<Byte>)
    requires v.Length == 16
    ensures r == Compressed(v[..])
  {
    hide Numeral, Pack;
    Pow64Table();
    r := Base64(v[0], 2);
    var i := 1;
    while i < 16
      invariant 1 <= i <= 16 && i % 3 == 1
      invariant r == CompressedUpTo(v[..], i / 3)
      decreases 16 - i
    {
      ghost var k := i / 3;
      assert i == 3 * k + 1 && k < 5 && (i + 3) / 3 == k + 1;
      assert Triple(v[..], k) == Pack(v[i], v[i + 1], v[i + 2]);
      var group := Base64(Pack(v[i], v[i + 1], v[i + 2]), 4);
      r := r + group;
      i := i + 3;
    }
  }

  /** Appending digits multiplies by a power of 64. */
  lemma {:induction false} ValueConcat(a: seq<Byte>, b: seq<Byte>)
    requires AllInAlphabet(a) && AllInAlphabet(b)
    ensures AllInAlphabet(a + b) && Value(a + b) == Value(a) * Pow64(|b|) + Value(b)
    decreases |b|
  {
    if b == [] {
      assert a + b == a;
    } else {
      hide DigitValue;
      var front, last := b[..|b| - 1], b[|b| - 1];
      ValueConcat(a, front);
      assert (a + b)[..|a + b| - 1] == a + front;
      assert Value(a + b) == 64 * Value(a + front) + DigitValue(last);
      Distribute(64, Value(a), Pow64(|front|), Value(front), DigitValue(last));
    }
  }

  lemma FirstByteDenoted(v: Bytes16)
    ensures AllInAlphabet(CompressedUpTo(v, 0)) && Value(CompressedUpTo(v, 0)) == BigEndian(v[..1])
  {
    hide Numeral, Value;
    Pow64Table();
    NumeralDenotes(v[0], 2);
    assert v[..1][..0] == [];
  }

  lemma TripleDenoted(v: Bytes16, k: nat)
    requires k < 5
    ensures var group := Numeral(Triple(v, k), 4);
            AllInAlphabet(group) && Value(group) == Triple(v, k) && Pow64(|group|) == 0x100_0000
  {
    hide Numeral, Value, Triple;
    Pow64Table();
    NumeralDenotes(Triple(v, k), 4);
  }

  lemma GroupAppended(front: seq<Byte>, group: seq<Byte>, f: nat, d: nat)
    requires AllInAlphabet(front) && AllInAlphabet(group) && Pow64(|group|) == 0x100_0000
    requires Value(front) == f && Value(group) == d
    ensures AllInAlphabet(front + group) && Value(front + group) == f * 0x100_0000 + d
  {
    hide Value, AllInAlphabet, Pow64;
    ValueConcat(front, group);
  }

  lemma CompressedStep(v: Bytes16, k: nat)
    requires 0 < k <= 5
    ensures CompressedUpTo(v, k) == CompressedUpTo(v, k - 1) + Numeral(Triple(v, k - 1), 4)
  {
    hide Numeral, Triple;
  }

  lemma {:induction false} PrefixDenotesBytes(v: Bytes16, k: nat)
    requires k <= 5
    ensures AllInAlphabet(CompressedUpTo(v, k))
    ensures Value(CompressedUpTo(v, k)) == BigEndian(v[..3 * k + 1])
  {
    hide CompressedUpTo, Numeral, Value, BigEndian, Triple, AllInAlphabet, Pow64;
    if k == 0 {
      FirstByteDenoted(v);
    } else {
      PrefixDenotesBytes(v, k - 1);
      TripleDenoted(v, k - 1);
      BigEndianTriple(v, k - 1);
      CompressedStep(v, k);
      GroupAppended(CompressedUpTo(v, k - 1), Numeral(Triple(v, k - 1), 4),
                    BigEndian(v[..3 * k - 2]), Triple(v, k - 1));
    }
  }

  lemma BigEndianTriple(v: Bytes16, k: nat)
    requires k < 5
    ensures BigEndian(v[..3 * k + 4]) == BigEndian(v[..3 * k + 1]) * 0x100_0000 + Triple(v, k)
  {
    var i := 3 * k + 1;
    BigEndianAppend(v, i);
    BigEndianAppend(v, i + 1);
    BigEndianAppend(v, i + 2);
  }

  lemma BigEndianAppend(v: seq<Byte>, i: nat)
    requires i < |v|
    ensures BigEndian(v[..i + 1]) == 256 * BigEndian(v[..i]) + v[i]
  {
    assert v[..i + 1][..i] == v[..i];
  }

  /** Read as base-64 digits, the 22 characters denote the 128-bit big-endian integer of the bytes. */
  lemma CompressedDenotesBytes(v: Bytes16)
    ensures AllInAlphabet(Compressed(v)) && Value(Compressed(v)) == BigEndian(v)
  {
    PrefixDenotesBytes(v, 5);
    assert v[..16] == v;
  }

  // ----- `expand` -----

  datatype Expansion = Bytes(v: Bytes16) | OutOfRange | NotDecodable

  function Min(a: nat, b: nat): nat { if a < b then a else b }

  /** `s.substr(pos, n)` for `pos <= |s|`. */
  function Substr(s: seq<Byte>, pos: nat, n: nat): seq<Byte>
    requires pos <= |s|
  {
    s[pos..Min(pos + n, |s|)]
  }

  /** The three low bytes of `d`. */
  function ThreeBytes(d: Word): (r: seq<Byte>)
    ensures |r| == 3
  {
    [d / 0x1_0000 % 0x100, d / 0x100 % 0x100, d % 0x100]
  }

  /** What is appended by the groups from `k` on; None and the reason where the original throws. */
  datatype Appended = Appended(bytes: seq<Byte>) | SubstrThrows | DecodeThrows

  function ExpandGroups(s: seq<Byte>, k: nat): (r: Appended)
    requires k <= 5
    ensures r.Appended? ==> |r.bytes| == 3 * (5 - k)
    decreases 5 - k
  {
    if k == 5 then Appended([])
    else if 2 + 4 * k > |s| then SubstrThrows
    else
      match Accumulate(0, Substr(s, 2 + 4 * k, 4))
      case None => DecodeThrows
      case Some(d) =>
        match ExpandGroups(s, k + 1)
        case Appended(bytes) => Appended(ThreeBytes(d) + bytes)
        case r => r
  }

  function Expanded(s: seq<Byte>): (r: Expansion) {
    match Accumulate(0, Substr(s, 0, 2))
    case None => NotDecodable
    case Some(d) =>
      match ExpandGroups(s, 0)
      case Appended(bytes) => Bytes([d % 0x100] + bytes)
      case SubstrThrows => OutOfRange
      case DecodeThrows => NotDecodable
  }

  /** `expand` on an empty vector. */
  method Expand(s: seq<Byte>) returns (r: Expansion)
    ensures r == Expanded(s)
  {
    hide Accumulate, ThreeBytes;
    var v: seq<Byte> := [];
    var first := FromBase64(Substr(s, 0, 2));
    if first.None? { return NotDecodable; }
    v := v + [first.value % 0x100];
    for i := 0 to 5
      invariant |v| == 1 + 3 * i
      invariant Expanded(s) == match ExpandGroups(s, i) {
                                 case Appended(bytes) => Bytes(v + bytes)
                                 case SubstrThrows => OutOfRange
                                 case DecodeThrows => NotDecodable
                               }
    {
      if 2 + 4 * i > |s| { return OutOfRange; }
      var d := FromBase64(Substr(s, 2 + 4 * i, 4));
      if d.None? { return NotDecodable; }
      ghost var before := v;
      assert forall bytes: seq<Byte> :: before + (ThreeBytes(d.value) + bytes) == before + ThreeBytes(d.value) + bytes;
      v := AppendThree(v, d.value);
    }
    assert v + [] == v;
    return Bytes(v);
  }

  /** The inner loop: `(d >> (8 * (2 - j))) % 256` for j = 0, 1, 2. */
  method AppendThree(v: seq<Byte>, d: Word) returns (r: seq<Byte>)
    ensures r == v + ThreeBytes(d)
  {
    r := v;
    var divisor := 0x1_0000;
    for j := 0 to 3
      invariant r == v + ThreeBytes(d)[..j]
      invariant divisor == if j == 0 then 0x1_0000 else if j == 1 then 0x100 else if j == 2 then 1 else 0
    {
      r := r + [d / divisor % 0x100];
      divisor := divisor / 0x100;
    }
  }

  // ----- round trips -----

  lemma GroupOfCompressed(v: Bytes16, k: nat, n: nat)
    requires k < n <= 5
    ensures CompressedUpTo(v, n)[2 + 4 * k..6 + 4 * k] == Numeral(Triple(v, k), 4)
    ensures CompressedUpTo(v, n)[..2] == Numeral(v[0], 2)
  {
    hide Numeral, Triple, Pack;
    var front, last := CompressedUpTo(v, n - 1), Numeral(Triple(v, n - 1), 4);
    CompressedStep(v, n);
    assert (front + last)[..2] == front[..2];
    if n == 1 {
      assert front[..2] == Numeral(v[0], 2);
    } else {
      GroupOfCompressed(v, if k == n - 1 then 0 else k, n - 1);
      if k < n - 1 { assert (front + last)[2 + 4 * k..6 + 4 * k] == front[2 + 4 * k..6 + 4 * k]; }
    }
  }

  /** `from_base64` reads back what `base64` printed. */
  lemma NumeralIsReadBack(d: Word, l: nat)
    requires l <= 4 && d < Pow64(l)
    ensures Accumulate(0, Numeral(d, l)) == Some(d)
  {
    NumeralDenotes(d, l);
    FromBase64Inverts(Numeral(d, l));
  }

  lemma ThreeBytesOfPack(a: Byte, b: Byte, c: Byte)
    ensures Pack(a, b, c) < 0x100_0000 && ThreeBytes(Pack(a, b, c)) == [a, b, c]
  {
    var d, high: nat := Pack(a, b, c), a * 0x100 + b;
    assert d == high * 0x100 + c && d / 0x100 == high && d % 0x100 == c;
    assert high / 0x100 == a && high % 0x100 == b;
    assert d / 0x1_0000 == a;
  }

  lemma PackOfThreeBytes(d: Word)
    requires d < 0x100_0000
    ensures var b := ThreeBytes(d); Pack(b[0], b[1], b[2]) == d
  {
    var high := d / 0x100;
    assert d == high * 0x100 + d % 0x100 && high == high / 0x100 * 0x100 + high % 0x100;
    assert d / 0x1_0000 == high / 0x100 < 0x100;
  }

  lemma GroupIsReadBack(v: Bytes16, k: nat)
    requires k < 5
    ensures Accumulate(0, Substr(Compressed(v), 2 + 4 * k, 4)) == Some(Triple(v, k))
    ensures ThreeBytes(Triple(v, k)) == [v[3 * k + 1], v[3 * k + 2], v[3 * k + 3]]
  {
    hide Accumulate, Numeral, Pack, ThreeBytes, CompressedUpTo;
    GroupOfCompressed(v, k, 5);
    Pow64Table();
    NumeralIsReadBack(Triple(v, k), 4);
    assert Substr(Compressed(v), 2 + 4 * k, 4) == Numeral(Triple(v, k), 4);
    ThreeBytesOfPack(v[3 * k + 1], v[3 * k + 2], v[3 * k + 3]);
  }

  lemma ExpandGroupsStep(s: seq<Byte>, k: nat, d: Word)
    requires k < 5 && 2 + 4 * k <= |s| && Accumulate(0, Substr(s, 2 + 4 * k, 4)) == Some(d)
    requires ExpandGroups(s, k + 1).Appended?
    ensures ExpandGroups(s, k) == Appended(ThreeBytes(d) + ExpandGroups(s, k + 1).bytes)
  {
    hide Accumulate, ThreeBytes, Substr;
  }

  lemma {:induction false} ExpandGroupsOfCompressed(v: Bytes16, k: nat)
    requires k <= 5
    ensures ExpandGroups(Compressed(v), k) == Appended(v[3 * k + 1..])
    decreases 5 - k
  {
    hide Accumulate, Compressed, Triple, ThreeBytes, Substr;
    if k == 5 {
      assert v[3 * k + 1..] == [];
    } else {
      hide ExpandGroups;
      GroupIsReadBack(v, k);
      ExpandGroupsOfCompressed(v, k + 1);
      ExpandGroupsStep(Compressed(v), k, Triple(v, k));
      assert v[3 * k + 1..] == [v[3 * k + 1], v[3 * k + 2], v[3 * k + 3]] + v[3 * k + 4..];
    }
  }

  /** expand(compress(v)) == v for every 16 bytes. */
  lemma ExpandCompressed(v: Bytes16)
    ensures Expanded(Compressed(v)) == Bytes(v)
  {
    hide Accumulate, Numeral, CompressedUpTo, ExpandGroups;
    GroupOfCompressed(v, 0, 5);
    Pow64Table();
    NumeralIsReadBack(v[0], 2);
    ExpandGroupsOfCompressed(v, 0);
    assert Substr(Compressed(v), 0, 2) == Numeral(v[0], 2);
    assert v == [v[0]] + v[1..];
  }

  /** `strchr` finds nothing for the character. */
  predicate IsForeign(c: Byte) { DigitValue(c) == -1 }

  predicate HasForeign(s: seq<Byte>, from: nat, to: nat)
    requires to <= |s|
  {
    exists i :: from <= i < to && IsForeign(s[i])
  }

  lemma {:induction false} AccumulateFailsExactly(r: Word, s: seq<Byte>)
    ensures Accumulate(r, s).None? <==> HasForeign(s, 0, |s|)
    decreases s
  {
    if s != [] {
      hide DigitValue;
      assert forall i :: 1 <= i < |s| ==> s[i] == s[1..][i - 1];
      if !IsForeign(s[0]) { AccumulateFailsExactly(PushDigit(r, DigitValue(s[0])), s[1..]); }
      if HasForeign(s[1..], 0, |s| - 1) {
        var i :| 0 <= i < |s| - 1 && IsForeign(s[1..][i]);
        assert IsForeign(s[i + 1]);
      }
    }
  }

  lemma ForeignInPiece(s: seq<Byte>, from: nat, to: nat)
    requires from <= to <= |s|
    ensures HasForeign(s[from..to], 0, to - from) <==> HasForeign(s, from, to)
  {
    hide IsForeign;
    var piece := s[from..to];
    assert forall i :: from <= i < to ==> s[i] == piece[i - from];
    if HasForeign(piece, 0, to - from) {
      var i :| 0 <= i < to - from && IsForeign(piece[i]);
      assert IsForeign(s[from + i]);
    }
  }

  /** The groups from `k` on fail to decode at the first foreign character that is left, and run out of characters
      when there is none and fewer than 18 in all. */
  lemma {:induction false} GroupsFailExactly(s: seq<Byte>, k: nat)
    requires k <= 5
    ensures ExpandGroups(s, k).DecodeThrows? <==> HasForeign(s, 2 + 4 * k, Min(22, |s|))
    ensures ExpandGroups(s, k).SubstrThrows?
            <==> k < 5 && |s| < 18 && !HasForeign(s, 2 + 4 * k, Min(22, |s|))
    decreases 5 - k
  {
    hide Accumulate, IsForeign, ThreeBytes;
    var from := 2 + 4 * k;
    if k < 5 && from <= |s| {
      var to := Min(from + 4, |s|);
      AccumulateFailsExactly(0, Substr(s, from, 4));
      ForeignInPiece(s, from, to);
      GroupsFailExactly(s, k + 1);
    }
  }

  /** `expand` on every string: it fails to decode if and only if one of the first 22 characters is foreign, otherwise
      runs out of characters if and only if there are fewer than 18, and otherwise yields 16 bytes. */
  lemma ExpandsExactly(s: seq<Byte>)
    ensures Expanded(s) == NotDecodable <==> HasForeign(s, 0, Min(22, |s|))
    ensures Expanded(s) == OutOfRange <==> |s| < 18 && !HasForeign(s, 0, |s|)
    ensures Expanded(s).Bytes? <==> |s| >= 18 && !HasForeign(s, 0, Min(22, |s|))
  {
    hide Accumulate, IsForeign, ExpandGroups;
    AccumulateFailsExactly(0, Substr(s, 0, 2));
    ForeignInPiece(s, 0, Min(2, |s|));
    GroupsFailExactly(s, 0);
  }

  /** The strings `compress` can produce: 22 digits of the alphabet, the first at most 3. */
  predicate IsCanonical(s: seq<Byte>) { |s| == 22 && AllInAlphabet(s) && DigitValue(s[0]) <= 3 }

  lemma CompressedIsCanonical(v: Bytes16)
    ensures IsCanonical(Compressed(v))
  {
    CompressedDenotesBytes(v);
    GroupOfCompressed(v, 0, 5);
    NumeralStep(v[0], 2);
    NumeralStep(v[0] / 64, 1);
    assert Numeral(v[0] / 64 / 64, 0) == [];
    assert Compressed(v)[0] == Compressed(v)[..2][0] == Digit(v[0] / 64);
  }

  function GroupValue(s: seq<Byte>, k: nat): (d: Word)
    requires |s| == 22 && AllInAlphabet(s) && k < 5
    ensures d < 0x100_0000
  {
    Pow64Table();
    Value(s[2 + 4 * k..6 + 4 * k])
  }

  lemma ExpandOneGroup(s: seq<Byte>, k: nat)
    requires |s| == 22 && AllInAlphabet(s) && k < 5
    ensures Accumulate(0, Substr(s, 2 + 4 * k, 4)) == Some(GroupValue(s, k))
  {
    FromBase64Inverts(s[2 + 4 * k..6 + 4 * k]);
  }

  function GroupBytes(s: seq<Byte>, k: nat): (r: seq<Byte>)
    requires |s| == 22 && AllInAlphabet(s) && k <= 5
    ensures |r| == 15 - 3 * k
    decreases 5 - k
  {
    if k == 5 then [] else ThreeBytes(GroupValue(s, k)) + GroupBytes(s, k + 1)
  }

  lemma {:induction false} ExpandedGroups(s: seq<Byte>, k: nat)
    requires |s| == 22 && AllInAlphabet(s) && k <= 5
    ensures ExpandGroups(s, k) == Appended(GroupBytes(s, k))
    decreases 5 - k
  {
    if k < 5 {
      hide Accumulate, GroupValue, Substr, ThreeBytes;
      ExpandOneGroup(s, k);
      ExpandedGroups(s, k + 1);
    }
  }

  lemma {:induction false} GroupBytesAt(s: seq<Byte>, k: nat, i: nat)
    requires |s| == 22 && AllInAlphabet(s) && k <= i < 5
    ensures GroupBytes(s, k)[3 * (i - k)..3 * (i - k) + 3] == ThreeBytes(GroupValue(s, i))
    decreases i - k
  {
    hide ThreeBytes, GroupValue;
    if k < i {
      GroupBytesAt(s, k + 1, i);
      var tail := GroupBytes(s, k + 1);
      assert GroupBytes(s, k)[3 * (i - k)..3 * (i - k) + 3] == tail[3 * (i - k - 1)..3 * (i - k - 1) + 3];
    }
  }

  lemma {:induction false} CompressExpandedUpTo(s: seq<Byte>, v: Bytes16, k: nat)
    requires |s| == 22 && AllInAlphabet(s) && k <= 5
    requires v[0] == Value(s[..2]) && v[1..] == GroupBytes(s, 0)
    ensures CompressedUpTo(v, k) == s[..2 + 4 * k]
  {
    hide ThreeBytes, Value, Numeral, GroupBytes, Pack, GroupValue, DigitValue;
    if k == 0 {
      NumeralOfValue(s[..2]);
    } else {
      var i := k - 1;
      CompressExpandedUpTo(s, v, i);
      GroupBytesAt(s, 0, i);
      var bytes := ThreeBytes(GroupValue(s, i));
      assert bytes == v[1..][3 * i..3 * i + 3] == v[3 * i + 1..3 * i + 4];
      assert bytes[0] == v[3 * i + 1] && bytes[1] == v[3 * i + 2] && bytes[2] == v[3 * i + 3];
      PackOfThreeBytes(GroupValue(s, i));
      assert Triple(v, i) == GroupValue(s, i);
      GroupNumeral(s, i);
      assert s[..2 + 4 * k] == s[..2 + 4 * i] + s[2 + 4 * i..6 + 4 * i];
    }
  }

  lemma GroupNumeral(s: seq<Byte>, i: nat)
    requires |s| == 22 && AllInAlphabet(s) && i < 5
    ensures Numeral(GroupValue(s, i), 4) == s[2 + 4 * i..6 + 4 * i]
  {
    NumeralOfValue(s[2 + 4 * i..6 + 4 * i]);
  }

  lemma FirstPair(s: seq<Byte>)
    requires |s| >= 2 && AllInAlphabet(s)
    ensures AllInAlphabet(s[..2]) && Value(s[..2]) == 64 * DigitValue(s[0]) + DigitValue(s[1])
  {
    assert s[..2][..1] == s[..1];
    assert s[..1][..0] == [];
  }

  /** Every string of 22 alphabet characters expands; its first byte keeps only the low eight bits. */
  lemma ExpandAlphabetString(s: seq<Byte>)
    requires |s| == 22 && AllInAlphabet(s)
    ensures Expanded(s) == Bytes([Value(s[..2]) % 0x100] + GroupBytes(s, 0))
  {
    hide Accumulate, GroupBytes, Value;
    FromBase64Inverts(s[..2]);
    ExpandedGroups(s, 0);
  }

  lemma CanonicalFirstByte(s: seq<Byte>)
    requires IsCanonical(s)
    ensures Value(s[..2]) < 0x100
  {
    FirstPair(s);
  }

  lemma CanonicalIsRestored(s: seq<Byte>)
    requires IsCanonical(s)
    ensures Expanded(s).Bytes? && Compressed(Expanded(s).v) == s
  {
    hide GroupBytes, Expanded, CompressedUpTo, Value, DigitValue;
    CanonicalFirstByte(s);
    ExpandAlphabetString(s);
    var v := Expanded(s).v;
    assert v[0] == Value(s[..2]);
    assert v[1..] == GroupBytes(s, 0);
    CompressExpandedUpTo(s, v, 5);
    assert s[..22] == s;
  }

  /** compress(expand(s)) == s holds exactly for the canonical strings, whatever `s` expands to. */
  lemma CompressExpanded(s: seq<Byte>)
    ensures Expanded(s).Bytes? ==> (Compressed(Expanded(s).v) == s <==> IsCanonical(s))
    ensures IsCanonical(s) ==> Expanded(s).Bytes?
  {
    hide Expanded, Compressed, IsCanonical;
    if IsCanonical(s) {
      CanonicalIsRestored(s);
    } else if Expanded(s).Bytes? {
      CompressedIsCanonical(Expanded(s).v);
    }
  }

  /** Different bytes never share an id. */
  lemma CompressedIsInjective(v: Bytes16, w: Bytes16)
    requires Compressed(v) == Compressed(w)
    ensures v == w
  {
    hide Compressed, Expanded;
    ExpandCompressed(v);
    ExpandCompressed(w);
  }
}
