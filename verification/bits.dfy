/**
 Fixed-width binary strings, the representation the mnemonic tables use for
 their bit fields ("010", "110111"): most significant bit first, one
 character '0' or '1' per bit.
 */
module Bits {

  predicate IsBit(c: char) {
    c == '0' || c == '1'
  }

  /** `s` is a `width`-bit binary string. */
  predicate IsBits(s: string, width: nat) {
    |s| == width && forall i :: 0 <= i < |s| ==> IsBit(s[i])
  }

  function Pow2(width: nat): (p: nat)
    ensures p >= 1
  {
    if width == 0 then 1 else 2 * Pow2(width - 1)
  }

  /** The `width`-bit binary string of `n` modulo 2^width. */
  function ToBits(n: nat, width: nat): (s: string)
    ensures IsBits(s, width)
  {
    if width == 0 then ""
    else ToBits(n / 2, width - 1) + [if n % 2 == 1 then '1' else '0']
  }

  /** The number a binary string denotes. */
  function Value(s: string): (n: nat)
    requires IsBits(s, |s|)
    ensures n < Pow2(|s|)
  {
    if |s| == 0 then 0
    else 2 * Value(s[..|s| - 1]) + (if s[|s| - 1] == '1' then 1 else 0)
  }

  /** Reading back the bits of a number that fits in the width gives the number. */
  lemma {:induction false} ValueOfBits(n: nat, width: nat)
    requires n < Pow2(width)
    ensures Value(ToBits(n, width)) == n
  {
    if width > 0 {
      var s := ToBits(n, width);
      assert s[..|s| - 1] == ToBits(n / 2, width - 1);
      HalfBelow(n, Pow2(width - 1));
      ValueOfBits(n / 2, width - 1);
      ValueOfLastBit(s, n);
    }
  }

  /** The value of a binary string is twice the value of all but its last bit, plus that bit. */
  lemma ValueOfLastBit(s: string, n: nat)
    requires |s| > 0 && IsBits(s, |s|)
    requires Value(s[..|s| - 1]) == n / 2 && s[|s| - 1] == (if n % 2 == 1 then '1' else '0')
    ensures Value(s) == n
  {
  }

  /** Halving a number below `2 * p` gives a number below `p`. */
  lemma HalfBelow(n: nat, p: nat)
    requires n < 2 * p
    ensures n / 2 < p
  {
  }

  /** Every binary string is the bits of its value. */
  lemma {:induction false} BitsOfValue(s: string)
    requires IsBits(s, |s|)
    ensures ToBits(Value(s), |s|) == s
  {
    if |s| > 0 {
      var p := s[..|s| - 1];
      assert IsBits(p, |p|);
      BitsOfValue(p);
      assert s == p + [s[|s| - 1]];
    }
  }

  /** Distinct numbers below 2^width have distinct `width`-bit strings. */
  lemma BitsInjective(m: nat, n: nat, width: nat)
    requires m < Pow2(width) && n < Pow2(width) && m != n
    ensures ToBits(m, width) != ToBits(n, width)
  {
    ValueOfBits(m, width);
    ValueOfBits(n, width);
  }
}
