/** Appending a digit to a numeral that is itself appended. */
module Numerals {
  /** With base `b`: moving `x` up behind `f` and one digit more, in one step or in two. */
  lemma Distribute(b: nat, x: nat, p: nat, f: nat, d: int)
    ensures b * (x * p + f) + d == x * (b * p) + (b * f + d)
  {
    assert b * (x * p) == x * (b * p);
  }
}
