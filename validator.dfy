/**
 * The two validators of validator.py: the Israeli national ID checksum
 * (a Luhn-style mod-10 weighted digit sum over nine digits) and the Israeli
 * mobile phone pattern 05[0123458] followed by seven digits.
 */
module Validator {

  /** An ASCII decimal digit (Python's str.isdigit also accepts other Unicode digits). */
  predicate IsDigit(c: char)
  {
    '0' <= c <= '9'
  }

  /** Every character of s is a digit. */
  predicate AllDigits(s: string)
  {
    forall i :: 0 <= i < |s| ==> IsDigit(s[i])
  }

  /** Python's str.isdigit on ASCII text: non-empty and made only of digits. */
  predicate IsDigitString(s: string)
  {
    |s| > 0 && AllDigits(s)
  }

  /** The value of a digit character, as Python's int(digit). */
  function DigitValue(c: char): (d: nat)
    requires IsDigit(c)
    ensures d <= 9
  {
    c as int - '0' as int
  }

  /** The multiplier of position i: 1 at even positions and 2 at odd ones. */
  function Weight(i: nat): (w: nat)
    ensures w == 1 || w == 2
    ensures w == 2 <==> i % 2 == 1
  {
    i % 2 + 1
  }

  /**
   * What digit d at position i adds to the checksum: d times the weight,
   * less 9 when that product is above 9.
   */
  function Contribution(d: nat, i: nat): (c: nat)
    requires d <= 9
    ensures c <= 9
    ensures c == d * Weight(i) / 10 + d * Weight(i) % 10
  {
    var num := d * Weight(i);
    if num > 9 then num - 9 else num
  }

  /** The checksum total over the first n positions of a digit string. */
  function PrefixSum(s: string, n: nat): (total: nat)
    requires AllDigits(s) && n <= |s|
    ensures total <= 9 * n
  {
    if n == 0 then 0
    else PrefixSum(s, n - 1) + Contribution(DigitValue(s[n - 1]), n - 1)
  }

  /** The checksum total of a whole digit string. */
  function WeightedSum(s: string): nat
    requires AllDigits(s)
  {
    PrefixSum(s, |s|)
  }

  /**
   * The standard Luhn value of digit d: itself, or when doubled the sum of
   * the two decimal digits of 2 * d.
   */
  function LuhnValue(d: nat, doubled: bool): nat
    requires d <= 9
  {
    if doubled then 2 * d / 10 + 2 * d % 10 else d
  }

  /**
   * The standard Luhn sum of the first n digits, read from the right: digit
   * n - 1 counts with the given doubling and the digits before it alternate.
   */
  function LuhnFrom(s: string, n: nat, doubled: bool): nat
    requires AllDigits(s) && n <= |s|
  {
    if n == 0 then 0
    else LuhnValue(DigitValue(s[n - 1]), doubled) + LuhnFrom(s, n - 1, !doubled)
  }

  /** The Luhn sum of a digit string, whose last (check) digit is not doubled. */
  function LuhnSum(s: string): nat
    requires AllDigits(s)
  {
    LuhnFrom(s, |s|, false)
  }

  /** A digit at position i contributes its Luhn value, doubled exactly at odd positions. */
  lemma ContributionIsLuhn(d: nat, i: nat)
    requires d <= 9
    ensures Contribution(d, i) == LuhnValue(d, i % 2 == 1)
  {
  }

  /**
   * The left-to-right weights 1, 2, 1, ... of the validator are the Luhn
   * doubling counted from the right: over the first n digits, the last one
   * is doubled exactly when n is even.
   */
  lemma {:induction false} PrefixSumIsLuhn(s: string, n: nat)
    requires AllDigits(s) && n <= |s|
    ensures PrefixSum(s, n) == LuhnFrom(s, n, n % 2 == 0)
  {
    if n > 0 {
      PrefixSumIsLuhn(s, n - 1);
      assert (n - 1) % 2 == 0 <==> n % 2 != 0;
      ContributionIsLuhn(DigitValue(s[n - 1]), n - 1);
    }
  }

  /** A valid Israeli ID: nine digits whose weighted sum is a multiple of 10. */
  predicate ValidId(s: string)
  {
    IsDigitString(s) && |s| == 9 && WeightedSum(s) % 10 == 0
  }

  /** A valid Israeli ID is exactly nine digits passing the standard Luhn check. */
  lemma ValidIdIsLuhn(s: string)
    ensures ValidId(s) <==> IsDigitString(s) && |s| == 9 && LuhnSum(s) % 10 == 0
  {
    if IsDigitString(s) {
      PrefixSumIsLuhn(s, |s|);
    }
  }

  /** The checksum loop of the ID validator. */
  method IsValidIsraeliId(idStr: string) returns (valid: bool)
    ensures valid <==> ValidId(idStr)
    ensures |idStr| != 9 ==> !valid
    ensures (exists i :: 0 <= i < |idStr| && !IsDigit(idStr[i])) ==> !valid
    ensures valid ==> WeightedSum(idStr) % 10 == 0 && WeightedSum(idStr) <= 81
  {
    if !IsDigitString(idStr) || |idStr| != 9 {
      return false;
    }
    var total := 0;
    for i := 0 to |idStr|
      invariant total == PrefixSum(idStr, i)
    {
      var num := DigitValue(idStr[i]) * (i % 2 + 1);
      if num > 9 {
        num := num - 9;
      }
      total := total + num;
    }
    return total % 10 == 0;
  }

  /**
   * Replacing the digit at position i changes the total over any prefix that
   * covers i by the change in that position's contribution, and no other total.
   */
  lemma {:induction false} PrefixSumUpdate(s: string, i: nat, c: char, n: nat)
    requires AllDigits(s) && i < |s| && IsDigit(c) && n <= |s|
    ensures AllDigits(s[i := c])
    ensures n <= i ==> PrefixSum(s[i := c], n) == PrefixSum(s, n)
    ensures i < n ==> PrefixSum(s[i := c], n) + Contribution(DigitValue(s[i]), i)
                      == PrefixSum(s, n) + Contribution(DigitValue(c), i)
  {
    if n > 0 {
      PrefixSumUpdate(s, i, c, n - 1);
    }
  }

  /** Two different digits at the same position contribute different amounts. */
  lemma ContributionInjective(d: nat, e: nat, i: nat)
    requires d <= 9 && e <= 9 && d != e
    ensures Contribution(d, i) != Contribution(e, i)
  {
  }

  /** Two different multiples of 10 are at least 10 apart. */
  lemma MultiplesOfTenApart(a: int, b: int)
    ensures a % 10 == 0 && b % 10 == 0 && a != b ==> a - b >= 10 || b - a >= 10
  {
  }

  /** The checksum catches every single-digit error: changing one digit of a valid ID makes it invalid. */
  lemma SingleDigitErrorDetected(s: string, i: nat, c: char)
    requires ValidId(s)
    requires i < |s| && IsDigit(c) && c != s[i]
    ensures !ValidId(s[i := c])
  {
    PrefixSumUpdate(s, i, c, |s|);
    ContributionInjective(DigitValue(s[i]), DigitValue(c), i);
    MultiplesOfTenApart(WeightedSum(s), WeightedSum(s[i := c]));
  }

  /** The weighted sum of the ID used by the server's tests, "123456782", is 40. */
  lemma WeightedSumExample()
    ensures AllDigits("123456782") && WeightedSum("123456782") == 40
  {
    var s := "123456782";
    assert PrefixSum(s, 1) == 1;
    assert PrefixSum(s, 2) == 5;
    assert PrefixSum(s, 3) == 8;
    assert PrefixSum(s, 4) == 16;
    assert PrefixSum(s, 5) == 21;
    assert PrefixSum(s, 6) == 24;
    assert PrefixSum(s, 7) == 31;
    assert PrefixSum(s, 8) == 38;
  }

  /** The ID used by the server's tests, "123456782", is valid. */
  lemma ValidIdExample()
    ensures ValidId("123456782")
  {
    WeightedSumExample();
  }

  /** The five-digit ID of the server's tests, "12345", is rejected for its length. */
  lemma ShortIdExample()
    ensures !ValidId("12345")
  {
  }

  /** The ASCII digits. */
  const Digits: set<char> := {'0', '1', '2', '3', '4', '5', '6', '7', '8', '9'}

  /** The third characters allowed after "05". */
  const MobilePrefixDigits: set<char> := {'0', '1', '2', '3', '4', '5', '8'}

  /** The pattern 05[0123458]\d{7} as the set of characters allowed at each position. */
  const PhonePattern: seq<set<char>> := [{'0'}, {'5'}, MobilePrefixDigits] + [Digits, Digits, Digits, Digits, Digits, Digits, Digits]

  /** The phone validator: the whole string matches the pattern, one character per position. */
  function IsValidPhone(phone: string): (valid: bool)
    ensures valid <==>
      && |phone| == 10
      && phone[..2] == "05"
      && phone[2] in "0123458"
      && forall i :: 3 <= i < 10 ==> IsDigit(phone[i])
  {
    |phone| == |PhonePattern| && forall i :: 0 <= i < |phone| ==> phone[i] in PhonePattern[i]
  }

  /** The phone numbers used by the server's tests. */
  lemma PhoneExamples()
    ensures IsValidPhone("0501234567") && IsValidPhone("0531234567") && IsValidPhone("0539876543")
    ensures !IsValidPhone("0591234567")
  {
  }
}
