/** Decimal digit strings and their values. */
module Decimal {

  /** An ASCII decimal digit, the only digits the invariant culture accepts. */
  predicate IsDigit(c: char) {
    '0' <= c <= '9'
  }

  predicate AllDigits(s: seq<char>) {
    forall i :: 0 <= i < |s| ==> IsDigit(s[i])
  }

  function DigitValue(c: char): (d: nat)
    requires IsDigit(c)
    ensures d <= 9
  {
    c as int - '0' as int
  }

  /** The value of a digit string read in base ten, most significant digit first. */
  function DigitsValue(s: seq<char>): nat
    requires AllDigits(s)
    decreases |s|
  {
    if |s| == 0 then 0 else DigitsValue(s[..|s| - 1]) * 10 + DigitValue(s[|s| - 1])
  }

  /** Appending one digit multiplies the value by ten and adds the digit. */
  lemma DigitsValueSnoc(s: seq<char>, c: char)
    requires AllDigits(s) && IsDigit(c)
    ensures AllDigits(s + [c])
    ensures DigitsValue(s + [c]) == DigitsValue(s) * 10 + DigitValue(c)
  {
    assert (s + [c])[..|s|] == s;
  }
}

/** The two's-complement integer widths of the source (`int` and `long`). */
module FixedWidth {

  const Int32Min: int := -0x8000_0000
  const Int32Max: int := 0x7FFF_FFFF
  const Int64Min: int := -0x8000_0000_0000_0000
  const Int64Max: int := 0x7FFF_FFFF_FFFF_FFFF

  datatype Width = W32 | W64

  function MinValue(w: Width): int {
    match w
    case W32 => Int32Min
    case W64 => Int64Min
  }

  function MaxValue(w: Width): int {
    match w
    case W32 => Int32Max
    case W64 => Int64Max
  }

  predicate InRange(w: Width, x: int) {
    MinValue(w) <= x <= MaxValue(w)
  }

  /** Unchecked 32-bit arithmetic: the representative of `x` modulo 2^32 in the `int` range. */
  function Wrap32(x: int): (r: int)
    ensures Int32Min <= r <= Int32Max
    ensures Int32Min <= x <= Int32Max ==> r == x
  {
    (x + 0x8000_0000) % 0x1_0000_0000 - 0x8000_0000
  }

  /** Unchecked 64-bit arithmetic: the representative of `x` modulo 2^64 in the `long` range. */
  function Wrap64(x: int): (r: int)
    ensures Int64Min <= r <= Int64Max
    ensures Int64Min <= x <= Int64Max ==> r == x
  {
    (x + 0x8000_0000_0000_0000) % 0x1_0000_0000_0000_0000 - 0x8000_0000_0000_0000
  }

  function Wrap(w: Width, x: int): (r: int)
    ensures InRange(w, r)
    ensures InRange(w, x) ==> r == x
  {
    match w
    case W32 => Wrap32(x)
    case W64 => Wrap64(x)
  }

  /** Wrapping changes a value by a multiple of 2^32. */
  lemma Wrap32Residue(x: int)
    ensures (Wrap32(x) - x) % 0x1_0000_0000 == 0
  {
  }

  /** Wrapping changes a value by a multiple of 2^64. */
  lemma Wrap64Residue(x: int)
    ensures (Wrap64(x) - x) % 0x1_0000_0000_0000_0000 == 0
  {
  }

  /** Wrapping is a function of the residue: inputs congruent modulo 2^32 wrap alike. */
  lemma Wrap32Congruent(x: int, y: int, k: int)
    requires x == y + k * 0x1_0000_0000
    ensures Wrap32(x) == Wrap32(y)
  {
  }

  lemma Wrap64Congruent(x: int, y: int, k: int)
    requires x == y + k * 0x1_0000_0000_0000_0000
    ensures Wrap64(x) == Wrap64(y)
  {
  }

  /**
   * One step of `result *= 10; result += digit;` in unchecked arithmetic: wrapping after
   * each operation gives the same value as wrapping the exact decimal accumulation.
   */
  lemma WrapAccumulate(w: Width, exact: int, d: int)
    ensures Wrap(w, Wrap(w, Wrap(w, exact) * 10) + d) == Wrap(w, exact * 10 + d)
  {
    match w
    case W32 =>
      var a := Wrap32(exact);
      Wrap32Residue(exact);
      var ka := (a - exact) / 0x1_0000_0000;
      assert a == exact + ka * 0x1_0000_0000;
      var b := Wrap32(a * 10);
      Wrap32Residue(a * 10);
      var kb := (b - a * 10) / 0x1_0000_0000;
      assert b == a * 10 + kb * 0x1_0000_0000;
      Wrap32Congruent(b + d, exact * 10 + d, 10 * ka + kb);
    case W64 =>
      var a := Wrap64(exact);
      Wrap64Residue(exact);
      var ka := (a - exact) / 0x1_0000_0000_0000_0000;
      assert a == exact + ka * 0x1_0000_0000_0000_0000;
      var b := Wrap64(a * 10);
      Wrap64Residue(a * 10);
      var kb := (b - a * 10) / 0x1_0000_0000_0000_0000;
      assert b == a * 10 + kb * 0x1_0000_0000_0000_0000;
      Wrap64Congruent(b + d, exact * 10 + d, 10 * ka + kb);
  }
}
