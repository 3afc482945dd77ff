/** The digits of a GlobalId by their positions in the table of src/ifcparse/IfcGlobalId.cpp as it is written there. */
module GlobalIdDigits {
  import opened CharacterCodes
  import opened GlobalId
  import opened Options
  import opened LiteralText

  const ALPHABET := "0123456789ABCDEFGHIJKLMNOPQRSTUVWXYZabcdefghijklmnopqrstuvwxyz_$"

  lemma DecimalPart(d: nat)
    requires d < 10
    ensures ALPHABET[d] as int == 0x30 + d
  {
    var digits, upper := "0123456789", "0123456789ABCDEFGHIJKLMNOPQRSTUVWXYZ";
    assert digits[d] as int == 0x30 + d;
    assert upper[d] == digits[d];
  }

  lemma UpperPart(d: nat)
    requires 10 <= d < 36
    ensures ALPHABET[d] as int == 0x41 + d - 10
  {
    var upper := "0123456789ABCDEFGHIJKLMNOPQRSTUVWXYZ";
    assert upper[d] as int == 0x41 + d - 10;
  }

  lemma LowerPart(d: nat)
    requires 36 <= d < 64
    ensures ALPHABET[d] as int == if d == 62 then 0x5F else if d == 63 then 0x24 else 0x61 + d - 36
  {
  }

  /** The digit for `d` is the character of the table at `d`. */
  lemma AlphabetTable(d: nat)
    requires d < 64
    ensures |ALPHABET| == 64 && ALPHABET[d] as int < 0x80
    ensures Digit(d) == ALPHABET[d] as int && DigitValue(ALPHABET[d] as int) == d
  {
    if d < 10 { DecimalPart(d); } else if d < 36 { UpperPart(d); } else { LowerPart(d); }
  }

  lemma AlphabetIsAscii()
    ensures IsAscii(ALPHABET) && |ALPHABET| == 64
  {
    forall d | 0 <= d < |ALPHABET| ensures ALPHABET[d] as int < 0x80 { AlphabetTable(d); }
  }

  // ----- `compress` -----

  lemma DropDigit(f: nat, d: nat, p: nat)
    requires d < 64 && p > 0
    ensures (64 * f + d) / (64 * p) == f / p
  {
    var q, r := f / p, f % p;
    assert f == q * p + r;
    assert 64 * f + d == q * (64 * p) + (64 * r + d);
    assert 64 * r + d < 64 * p;
    Quotient(64 * f + d, 64 * p, q, 64 * r + d);
  }

  lemma Quotient(a: nat, b: nat, q: nat, r: nat)
    requires a == q * b + r && r < b
    ensures a / b == q
  {
    var k := a / b;
    assert a == k * b + a % b;
    if k < q { Monotone(k + 1, q, b); }
    if q < k { Monotone(q + 1, k, b); }
  }

  lemma Monotone(x: nat, y: nat, b: nat)
    requires x <= y
    ensures x * b <= y * b
  {
  }

  /** The digit at `i` counts 64 to the number of digits behind it. */
  lemma {:induction false} DigitAt(s: seq<Byte>, i: nat)
    requires AllInAlphabet(s) && i < |s|
    ensures DigitValue(s[i]) == Value(s) / Pow64(|s| - 1 - i) % 64
  {
    hide DigitValue, Value, Pow64;
    var front, last := s[..|s| - 1], s[|s| - 1];
    assert s == front + [last];
    ValueStep(front, last);
    Pow64Table();
    if i == |s| - 1 {
      Digits64(Value(front), DigitValue(last));
    } else {
      DigitAt(front, i);
      NextPower(|front| - 1 - i);
      DropDigit(Value(front), DigitValue(last), Pow64(|front| - 1 - i));
    }
  }

  lemma NextPower(n: nat)
    ensures Pow64(n + 1) == 64 * Pow64(n)
  {
  }

  /** Character `i` of a compressed id is the one of the table at the digit that counts 64 to the power 21 - i in the
      128-bit big-endian integer of the bytes. */
  lemma CompressedFromTable(v: Bytes16, i: nat)
    requires i < 22
    ensures var d := BigEndian(v) / Pow64(21 - i) % 64;
            d < |ALPHABET| && Compressed(v)[i] == ALPHABET[d] as int
  {
    hide Compressed, DigitValue, Digit, Value, BigEndian, Pow64;
    CompressedDenotesBytes(v);
    DigitAt(Compressed(v), i);
    var d := BigEndian(v) / Pow64(21 - i) % 64;
    AlphabetTable(d);
    assert InAlphabet(Compressed(v)[i]);
    DigitOfValue(Compressed(v)[i]);
  }

  // ----- `expand` -----

  predicate IsDigitTable(table: string) {
    && |table| == 64 && IsAscii(table)
    && forall d :: 0 <= d < 64 ==> DigitValue(table[d] as int) == d
  }

  lemma {:induction false} NumeralInTable(table: string, ps: seq<nat>)
    requires IsDigitTable(table) && AllBelow(ps, |table|)
    ensures AllInAlphabet(Written(table, ps)) && Value(Written(table, ps)) == Number(64, ps)
  {
    hide DigitValue, Digit;
    if ps != [] {
      WrittenFront(table, ps);
      NumeralInTable(table, ps[..|ps| - 1]);
    }
  }

  lemma WrittenDenotes(ps: seq<nat>)
    requires AllBelow(ps, 64)
    ensures IsAscii(ALPHABET) && |ALPHABET| == 64
    ensures AllInAlphabet(Written(ALPHABET, ps)) && Value(Written(ALPHABET, ps)) == Number(64, ps)
  {
    hide DigitValue, Digit;
    AlphabetIsAscii();
    forall d | 0 <= d < 64 ensures DigitValue(ALPHABET[d] as int) == d { AlphabetTable(d); }
    NumeralInTable(ALPHABET, ps);
  }

  lemma {:induction false} NumberFits(ps: seq<nat>)
    requires AllBelow(ps, 64)
    ensures Number(64, ps) < Pow64(|ps|)
  {
    if ps != [] { NumberFits(ps[..|ps| - 1]); }
  }

  /** The positions of the digits of group `k`; the last group may be short. */
  function GroupDigits(ps: seq<nat>, k: nat): seq<nat>
    requires |ps| >= 18 && k < 5
  {
    ps[2 + 4 * k..if 6 + 4 * k <= |ps| then 6 + 4 * k else |ps|]
  }

  lemma PieceFromTable(ps: seq<nat>, from: nat, to: nat)
    requires AllBelow(ps, 64) && from <= to <= |ps| && to - from <= 4
    ensures IsAscii(ALPHABET) && |ALPHABET| == 64
    ensures Number(64, ps[from..to]) < Pow64(to - from) <= 0x100_0000
    ensures Accumulate(0, Written(ALPHABET, ps)[from..to]) == Some(Number(64, ps[from..to]))
  {
    hide Accumulate, Value, InAlphabet, Number, Pow64, AllInAlphabet;
    AlphabetIsAscii();
    var piece := ps[from..to];
    WrittenDenotes(piece);
    assert Written(ALPHABET, ps)[from..to] == Written(ALPHABET, piece);
    FromBase64Inverts(Written(ALPHABET, piece));
    NumberFits(piece);
    Pow64Table();
  }

  /** Three bytes, most significant first. */
  predicate AreBytesOf(bytes: seq<Byte>, d: nat) {
    |bytes| == 3 && (bytes[0] as nat) * 0x1_0000 + (bytes[1] as nat) * 0x100 + bytes[2] as nat == d
  }

  lemma GroupIsDecoded(ps: seq<nat>, s: seq<Byte>, k: nat)
    requires AllBelow(ps, 64) && |ps| >= 18 && k < 5
    requires IsAscii(ALPHABET) && |ALPHABET| == 64 && s == Written(ALPHABET, ps)
    ensures Number(64, GroupDigits(ps, k)) < 0x100_0000
    ensures Accumulate(0, Substr(s, 2 + 4 * k, 4)) == Some(Number(64, GroupDigits(ps, k)))
  {
    hide Accumulate, Written, Number;
    PieceFromTable(ps, 2 + 4 * k, Min(6 + 4 * k, |ps|));
  }

  /** Group `i` of what is appended from group `k` on. */
  lemma {:induction false} GroupFromTable(ps: seq<nat>, s: seq<Byte>, k: nat, i: nat)
    requires AllBelow(ps, 64) && |ps| >= 18 && k <= i < 5
    requires IsAscii(ALPHABET) && |ALPHABET| == 64 && s == Written(ALPHABET, ps)
    ensures ExpandGroups(s, k).Appended?
    ensures AreBytesOf(ExpandGroups(s, k).bytes[3 * (i - k)..3 * (i - k) + 3], Number(64, GroupDigits(ps, i)))
    decreases 5 - k
  {
    hide Accumulate, ThreeBytes, AreBytesOf, Written, ExpandGroups, Number, GroupDigits, Substr;
    var d := Number(64, GroupDigits(ps, k));
    GroupIsDecoded(ps, s, k);
    if k + 1 < 5 { GroupFromTable(ps, s, k + 1, if i == k then k + 1 else i); } else { NoGroups(s); }
    ExpandGroupsStep(s, k, d);
    BytesOfPack(d);
    var bytes, rest := ExpandGroups(s, k).bytes, ExpandGroups(s, k + 1).bytes;
    if i == k {
      assert bytes[0..3] == ThreeBytes(d);
    } else {
      assert bytes[3 * (i - k)..3 * (i - k) + 3] == rest[3 * (i - k - 1)..3 * (i - k - 1) + 3];
    }
  }

  lemma NoGroups(s: seq<Byte>)
    ensures ExpandGroups(s, 5) == Appended([])
  {
  }

  lemma BytesOfPack(d: Word)
    requires d < 0x100_0000
    ensures AreBytesOf(ThreeBytes(d), d)
  {
    PackOfThreeBytes(d);
  }

  /** A string of 18 or more characters of the table expands: the first byte is what the first two positions denote,
      cut to eight bits, and every further three bytes are what the next four positions denote. */
  lemma ExpandedFromTable(ps: seq<nat>)
    requires AllBelow(ps, 64) && |ps| >= 18
    ensures IsAscii(ALPHABET) && |ALPHABET| == 64
    ensures match Expanded(Written(ALPHABET, ps)) {
              case Bytes(v) =>
                && v[0] == Number(64, ps[..2]) % 0x100
                && forall k :: 0 <= k < 5 ==> AreBytesOf(v[3 * k + 1..3 * k + 4], Number(64, GroupDigits(ps, k)))
              case _ => false
            }
  {
    hide Accumulate, AreBytesOf, ExpandGroups, Written, GroupDigits;
    AlphabetIsAscii();
    var s := Written(ALPHABET, ps);
    PieceFromTable(ps, 0, 2);
    assert ps[0..2] == ps[..2];
    GroupFromTable(ps, s, 0, 0);
    var bytes, v := ExpandGroups(s, 0).bytes, Expanded(s).v;
    forall k | 0 <= k < 5 ensures AreBytesOf(v[3 * k + 1..3 * k + 4], Number(64, GroupDigits(ps, k))) {
      GroupFromTable(ps, s, 0, k);
      assert v[3 * k + 1..3 * k + 4] == bytes[3 * (k - 0)..3 * (k - 0) + 3];
    }
  }

  /** What `expand` cannot decode is what is not in the table, the terminator excepted. */
  lemma ForeignExactly(c: Byte)
    ensures IsForeign(c) <==> c != 0 && c as char !in ALPHABET
  {
    hide DigitValue, Digit;
    if InAlphabet(c) {
      AlphabetTable(DigitValue(c));
      DigitOfValue(c);
      assert ALPHABET[DigitValue(c)] == c as char;
    }
    if c as char in ALPHABET {
      var d :| 0 <= d < |ALPHABET| && ALPHABET[d] == c as char;
      AlphabetTable(d);
    }
    TerminatorValue(c);
  }

  lemma TerminatorValue(c: Byte)
    ensures DigitValue(c) == 64 <==> c == 0
  {
  }
}
