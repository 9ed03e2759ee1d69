/** Numerals in bases 2 to 16: what a printer of integers produces and what its text denotes. */
module Numerals {
  import opened Common
  import opened Bits

  const ZERO: Byte := 48   // '0'

  /** The unsigned quotient. */
  function Quo(v: nat, base: nat): (q: nat)
    requires base >= 2
    ensures v < base ==> q == 0
    ensures v >= base ==> 0 < q < v
    ensures 2 * q <= v
    ensures v == q * base + Rem(v, base)
  {
    QuotientFacts(v, base);
    v / base
  }

  /** The unsigned remainder. */
  function Rem(v: nat, base: nat): (r: nat)
    requires base >= 2
    ensures r < base && (v < base ==> r == v)
  {
    v % base
  }

  lemma QuotientFacts(v: nat, base: nat)
    requires base >= 2
    ensures v == (v / base) * base + v % base
    ensures 2 * (v / base) <= v
    ensures v < base ==> v / base == 0
    ensures v >= base ==> 0 < v / base < v
  {
    var q, r := v / base, v % base;
    assert v == base * q + r && 0 <= r < base;
    DivisionFacts(v, base, q, r);
  }

  lemma DivisionFacts(v: nat, base: nat, q: int, r: nat)
    requires base >= 2 && r < base && v == base * q + r
    ensures v == q * base + r && q >= 0 && 2 * q <= v
    ensures v < base ==> q == 0
    ensures v >= base ==> 0 < q < v
  {
    assert base * q == q * base;
    if q < 0 {
      TimesIsMonotone(q, -1, base);
    } else {
      TimesIsMonotone(2, base, q);
      if q > 0 {
        TimesIsMonotone(1, q, base);
      }
    }
  }

  lemma {:induction false} TimesIsMonotone(a: int, b: int, c: nat)
    requires a <= b
    ensures a * c <= b * c
    decreases c
  {
    if c > 0 {
      TimesIsMonotone(a, b, c - 1);
      assert a * c == a * (c - 1) + a && b * c == b * (c - 1) + b;
    }
  }

  /** The hexadecimal table is upper case, the table of the other bases is lower case. */
  function Digit(base: nat, d: nat): (c: Byte)
    requires d < base <= 16
    ensures DigitValue(c) == d && (c == ZERO <==> d == 0)
  {
    if d < 10 then ZERO + d else if base == 16 then 65 + (d - 10) else 97 + (d - 10)
  }

  function DigitValue(c: Byte): nat {
    if 48 <= c <= 57 then c - 48 else if 65 <= c <= 70 then c - 55 else if 97 <= c <= 102 then c - 87 else 0
  }

  /** "0123456789ABCDEF" */
  const UPPER: Str := [48, 49, 50, 51, 52, 53, 54, 55, 56, 57, 65, 66, 67, 68, 69, 70]
  /** "0123456789abcdef" */
  const LOWER: Str := [48, 49, 50, 51, 52, 53, 54, 55, 56, 57, 97, 98, 99, 100, 101, 102]

  /** The digits are those of the tables. */
  lemma DigitsAreTabled(base: nat, d: nat)
    requires d < base <= 16
    ensures Digit(base, d) == if base == 16 then UPPER[d] else LOWER[d]
  {
  }

  /** The shortest numeral of v, most significant digit first. */
  function Numeral(v: nat, base: nat): (r: Str)
    requires 2 <= base <= 16
    ensures |r| >= 1
    decreases v
  {
    if v < base then [Digit(base, v)] else Numeral(Quo(v, base), base) + [Digit(base, Rem(v, base))]
  }

  /** What a numeral denotes. */
  function ValueOf(s: Str, base: nat): nat {
    if s == [] then 0 else ValueOf(s[..|s| - 1], base) * base + DigitValue(s[|s| - 1])
  }

  function Zeros(n: nat): Str {
    seq(n, _ => ZERO)
  }

  lemma MoreZeros(n: nat, s: Str)
    ensures Zeros(0) + s == s && [ZERO] + (Zeros(n) + s) == Zeros(n + 1) + s
  {
  }

  /** Left-padded with zeros to the width. */
  function Padded(s: Str, width: nat): Str {
    if |s| < width then Zeros(width - |s|) + s else s
  }

  lemma PaddedIs(s: Str, width: nat)
    ensures Padded(s, width) == Zeros(if |s| < width then width - |s| else 0) + s
  {
  }

  /** The numeral denotes its value and has no leading zero, so no shorter text of digits denotes it. */
  lemma {:induction false} NumeralDenotes(v: nat, base: nat)
    requires 2 <= base <= 16
    ensures ValueOf(Numeral(v, base), base) == v
    ensures Numeral(v, base)[0] == ZERO ==> v == 0 && |Numeral(v, base)| == 1
    decreases v
  {
    hide Quo, Rem, Digit, DigitValue;
    if v >= base {
      var q := Quo(v, base);
      var s := Numeral(q, base);
      NumeralDenotes(q, base);
      var t := s + [Digit(base, Rem(v, base))];
      assert t[..|t| - 1] == s;
      assert t[0] == s[0];
    } else {
      assert [Digit(base, v)][..0] == [];
    }
  }

  lemma {:induction false} PaddingDenotesTheSame(n: nat, s: Str, base: nat)
    ensures ValueOf(Zeros(n) + s, base) == ValueOf(s, base)
    decreases n + |s|
  {
    var t := Zeros(n) + s;
    if s != [] {
      assert t[..|t| - 1] == Zeros(n) + s[..|s| - 1];
      PaddingDenotesTheSame(n, s[..|s| - 1], base);
    } else if n > 0 {
      assert t[..|t| - 1] == Zeros(n - 1) + [];
      PaddingDenotesTheSame(n - 1, [], base);
    }
  }

  /** Reading the printed text back gives the value, and it is as wide as asked for, or as the numeral needs. */
  lemma {:induction false} PrintedTextDenotes(v: nat, base: nat, width: nat)
    requires 2 <= base <= 16
    ensures ValueOf(Padded(Numeral(v, base), width), base) == v
    ensures |Padded(Numeral(v, base), width)| == if |Numeral(v, base)| < width then width else |Numeral(v, base)|
  {
    hide Numeral;
    var s := Numeral(v, base);
    NumeralDenotes(v, base);
    if |s| < width {
      PaddingDenotesTheSame(width - |s|, s, base);
    }
  }

  lemma {:induction false} NumeralLength(v: nat, base: nat, k: nat)
    requires 2 <= base <= 16 && v < Pow2(k) && k >= 1
    ensures |Numeral(v, base)| <= k
    decreases k
  {
    hide Quo, Rem, Digit;
    if v >= base && k > 1 {
      NumeralLength(Quo(v, base), base, k - 1);
    }
  }

  /** At most 64 digits, in any base, for a 64-bit value. */
  lemma NumeralFits(v: Uint64, base: nat)
    requires 2 <= base <= 16
    ensures |Numeral(v, base)| <= 64
  {
    Pow2At();
    NumeralLength(v, base, 64);
  }
}
