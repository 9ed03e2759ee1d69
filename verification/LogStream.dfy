/** Log4zStream (log4z.h): the table-driven integer printer over a caller's buffer. */
module LogStreams {
  import opened Common
  import opened Numerals

  const MINUS: Byte := 45  // '-'

  // ------------------------------------------------------------- digit pairs

  function Pair(v: nat, base: nat): Str
    requires 2 <= base <= 16
  {
    [Digit(base, Rem(Quo(v, base), base)), Digit(base, Rem(v, base))]
  }

  /** The numeral with an even number of digits, as the two-digit tables produce it. */
  function Pairs(v: nat, base: nat): Str
    requires 2 <= base <= 16
    decreases v
  {
    var rest := Quo(Quo(v, base), base);
    if v < base || rest == 0 then Pair(v, base) else Pairs(rest, base) + Pair(v, base)
  }

  function PairCount(v: nat, base: nat): (k: nat)
    requires 2 <= base <= 16
    ensures k >= 1
    decreases v
  {
    var rest := Quo(Quo(v, base), base);
    if v < base || rest == 0 then 1 else PairCount(rest, base) + 1
  }

  lemma {:induction false} PairsComeInTwos(v: nat, base: nat)
    requires 2 <= base <= 16
    ensures |Pairs(v, base)| == 2 * PairCount(v, base) >= 2
    decreases v
  {
    hide Quo, Rem, Digit;
    if v >= base && Quo(Quo(v, base), base) != 0 {
      PairsComeInTwos(Quo(Quo(v, base), base), base);
    }
  }

  /** Dropping one leading zero of the pairs leaves the shortest numeral. */
  lemma {:induction false} PairsAreNumeral(v: nat, base: nat)
    requires 2 <= base <= 16
    ensures Pairs(v, base) == (if Pairs(v, base)[0] == ZERO then [ZERO] else []) + Numeral(v, base)
    decreases v
  {
    hide Quo, Rem, Digit;
    var w := Quo(v, base);
    var u := Quo(w, base);
    PairsComeInTwos(v, base);
    if u == 0 {
      assert w < base;
      NumeralDenotes(v, base);
    } else {
      PairsAreNumeral(u, base);
      PairsComeInTwos(u, base);
      assert w >= base && v >= base;
      assert Numeral(v, base) == Numeral(u, base) + Pair(v, base);
    }
  }

  lemma TrimPairs(v: nat, base: nat)
    requires 2 <= base <= 16
    ensures var s := Pairs(v, base);
            |s| >= 2 && Numeral(v, base) == if s[0] == ZERO then s[1..] else s
  {
    hide Pairs, Numeral;
    PairsComeInTwos(v, base);
    PairsAreNumeral(v, base);
    assert [ZERO] + Numeral(v, base) == Pairs(v, base) ==> Numeral(v, base) == Pairs(v, base)[1..];
  }

  /** The pairs of a 64-bit value fit the 64-byte buffer. */
  lemma {:induction false} PairsFit(v: Uint64, base: nat)
    requires 2 <= base <= 16
    ensures 2 <= |Pairs(v, base)| <= 64
  {
    hide Numeral, Pairs;
    PairsAreNumeral(v, base);
    NumeralFits(v, base);
    PairsComeInTwos(v, base);
  }

  /** One iteration of a two-digit loop: 100 for base 10. */
  lemma DecimalStep(v: nat)
    ensures Rem(Quo(v, 10), 10) == v % 100 / 10 && Rem(v, 10) == v % 100 % 10
    ensures Quo(Quo(v, 10), 10) == v / 100
  {
    var a, b := v / 100, v % 100;
    assert v == 100 * a + b;
    assert v / 10 == 10 * a + b / 10;
  }

  /** One iteration of a two-digit loop: 256 for base 16. */
  lemma HexStep(v: nat)
    ensures Rem(Quo(v, 16), 16) == v % 256 / 16 && Rem(v, 16) == v % 256 % 16
    ensures Quo(Quo(v, 16), 16) == v / 256
  {
    var a, b := v / 256, v % 256;
    assert v == 256 * a + b;
    assert v / 16 == 16 * a + b / 16;
  }

  /** What is left to print of a value: nothing once it is zero. */
  function PairsLeft(v: nat, base: nat): Str
    requires 2 <= base <= 16
  {
    if v == 0 then [] else Pairs(v, base)
  }

  function DigitsLeft(v: nat, base: nat): Str
    requires 2 <= base <= 16
  {
    if v == 0 then [] else Numeral(v, base)
  }

  lemma {:induction false} PairsStep(v: nat, base: nat)
    requires 2 <= base <= 16
    ensures Pairs(v, base) == PairsLeft(Quo(Quo(v, base), base), base) + Pair(v, base)
    ensures v != 0 ==> PairsLeft(v, base) == Pairs(v, base) && |PairsLeft(v, base)| >= 2
  {
    PairsComeInTwos(v, base);
    hide Quo, Rem, Digit;
  }

  /** A pair moves from what is left to what is written; what is then left has at least two digits, or none. */
  lemma PairMoved(val: nat, base: nat, tail: Str)
    requires 2 <= base <= 16
    ensures var rest := Quo(Quo(val, base), base);
            && Pairs(val, base) + tail == PairsLeft(rest, base) + (Pair(val, base) + tail)
            && |Pair(val, base)| == 2 && |Pairs(val, base)| >= 2
            && (rest != 0 ==> PairsLeft(rest, base) == Pairs(rest, base) && |Pairs(rest, base)| >= 2)
  {
    hide Quo, Digit, Rem, Pairs, PairsLeft;
    var rest := Quo(Quo(val, base), base);
    PairsStep(val, base);
    PairsStep(rest, base);
    Associates(PairsLeft(rest, base), Pair(val, base), tail);
  }

  lemma NothingLeft(base: nat)
    requires 2 <= base <= 16
    ensures PairsLeft(0, base) == [] && forall s: Str :: [] + s == s
  {
  }

  lemma NumeralStep(v: nat, base: nat)
    requires 2 <= base <= 16
    ensures Numeral(v, base) == DigitsLeft(Quo(v, base), base) + [Digit(base, Rem(v, base))]
  {
    hide Quo, Rem, Digit;
  }

  lemma DigitMoved(val: nat, base: nat, tail: Str)
    requires 2 <= base <= 16
    ensures var rest := Quo(val, base);
            && Numeral(val, base) + tail == DigitsLeft(rest, base) + ([Digit(base, Rem(val, base))] + tail)
            && (rest != 0 ==> DigitsLeft(rest, base) == Numeral(rest, base))
  {
    NumeralStep(val, base);
    hide Quo, Digit, Rem, Numeral;
    Associates(DigitsLeft(Quo(val, base), base), [Digit(base, Rem(val, base))], tail);
  }

  lemma NoDigitsLeft(base: nat)
    requires 2 <= base <= 16
    ensures DigitsLeft(0, base) == [] && forall s: Str :: [] + s == s
  {
  }

  /** lutDec: the characters of 00, 01, ... 99, one after the other. */
  function LutDec(): (r: Str)
    ensures |r| == 200
    ensures forall k :: 0 <= k < 100 ==> r[2 * k] == Digit(10, k / 10) && r[2 * k + 1] == Digit(10, k % 10)
  {
    assert forall k: nat :: 2 * k % 2 == 0 && 2 * k / 2 == k && (2 * k + 1) % 2 == 1 && (2 * k + 1) / 2 == k;
    seq(200, m requires 0 <= m < 200 => if m % 2 == 0 then Digit(10, m / 2 / 10) else Digit(10, m / 2 % 10))
  }

  /** lutHex: the characters of 00, 01, ... FF, one after the other. */
  function LutHex(): (r: Str)
    ensures |r| == 512
    ensures forall k :: 0 <= k < 256 ==> r[2 * k] == Digit(16, k / 16) && r[2 * k + 1] == Digit(16, k % 16)
  {
    assert forall k: nat :: 2 * k % 2 == 0 && 2 * k / 2 == k && (2 * k + 1) % 2 == 1 && (2 * k + 1) / 2 == k;
    seq(512, m requires 0 <= m < 512 => if m % 2 == 0 then Digit(16, m / 2 / 16) else Digit(16, m / 2 % 16))
  }

  // ---------------------------------------------------------------- the object

  const CACHE_SIZE: nat := 64

  class Log4zStream {
    const buf: array<Byte>
    var cur: nat

    ghost predicate Valid()
      reads this
    {
      cur <= buf.Length
    }

    /** What has been written so far. */
    ghost function Text(): Str
      requires Valid()
      reads this, buf
    {
      buf[..cur]
    }

    function Room(): nat
      requires Valid()
      reads this
    {
      buf.Length - cur
    }

    constructor (buffer: array<Byte>)
      ensures Valid() && buf == buffer && Text() == [] && Room() == buffer.Length
    {
      buf := buffer;
      cur := 0;
    }

    /** Writes what fits. */
    method WriteString(t: Str)
      requires Valid()
      modifies this, buf
      ensures Valid()
      ensures Text() == old(Text()) + (if |t| <= old(Room()) then t else t[..old(Room())])
    {
      var count := buf.Length - cur;
      var len := if |t| > count then count else |t|;
      if len > 0 {
        forall i | 0 <= i < len {
          buf[cur + i] := t[i];
        }
        cur := cur + len;
      }
    }

    /** Writes the character unless it would be the last that fits. */
    method WriteChar(c: Byte)
      requires Valid()
      modifies this, buf
      ensures Valid()
      ensures Text() == old(Text()) + (if old(Room()) > 1 then [c] else [])
    {
      if buf.Length - cur > 1 {
        buf[cur] := c;
        cur := cur + 1;
      }
    }

    /** The loop of bases 10 and 16: two digits a time from the table, from the end of the buffer. */
    static method PairLoop(t: Uint64, base: nat, local: array<Byte>) returns (digit: nat)
      requires local.Length == CACHE_SIZE && (base == 10 || base == 16)
      modifies local
      ensures 2 <= digit <= CACHE_SIZE
      ensures local[CACHE_SIZE - digit..] == Pairs(t, base)
    {
      hide Numeral, Digit, Pair, Pairs, Quo, Rem, PairsLeft;
      PairsFit(t, base);
      var val: nat, i := t, CACHE_SIZE;
      digit := 0;
      var again := true;
      ghost var done: Str := [];
      while again
        invariant i == CACHE_SIZE - digit && digit <= CACHE_SIZE && local[i..] == done
        invariant Pairs(t, base) == (if again then Pairs(val, base) else PairsLeft(val, base)) + done
        invariant if again then i >= 2 else val == 0 && digit >= 2
        decreases again, i
      {
        ghost var was, tail := val, done;
        val := PutPair(val, base, local, i);
        done := Pair(was, base) + tail;
        PairMoved(was, base, tail);
        assert local[i - 2..] == local[i - 2..i] + local[i..];
        i := i - 2;
        digit := digit + 2;
        again := val != 0 && i >= 2;
      }
      NothingLeft(base);
    }

    /** The loop, then one leading zero dropped. */
    static method FillPairs(t: Uint64, base: nat, local: array<Byte>) returns (digit: nat)
      requires local.Length == CACHE_SIZE && (base == 10 || base == 16)
      modifies local
      ensures 1 <= digit <= CACHE_SIZE
      ensures local[CACHE_SIZE - digit..] == Numeral(t, base)
    {
      hide Numeral, Pairs;
      digit := PairLoop(t, base, local);
      ghost var pairs := local[CACHE_SIZE - digit..];
      TrimPairs(t, base);
      assert local[CACHE_SIZE - digit] == pairs[0];
      if digit >= 2 && local[CACHE_SIZE - digit] == ZERO {
        digit := digit - 1;
        assert local[CACHE_SIZE - digit..] == pairs[1..];
      }
    }

    /** The loop body: two characters from the table, and the value that is left. */
    static method PutPair(val: nat, base: nat, local: array<Byte>, i: nat) returns (rest: nat)
      requires 2 <= i <= local.Length && (base == 10 || base == 16)
      modifies local
      ensures rest == Quo(Quo(val, base), base)
      ensures local[i - 2..i] == Pair(val, base) && local[i..] == old(local[i..])
    {
      hide Digit, Quo, Rem, LutDec, LutHex;
      ghost var tail := local[i..];
      var high, low;
      if base == 10 {
        DecimalStep(val);
        var k := val % 100;
        high, low := LutDec()[2 * k], LutDec()[2 * k + 1];
        rest := val / 100;
      } else {
        HexStep(val);
        var k := val % 256;
        high, low := LutHex()[2 * k], LutHex()[2 * k + 1];
        rest := val / 256;
      }
      assert [high, low] == Pair(val, base);
      local[i - 1] := low;
      local[i - 2] := high;
      assert local[i - 2..i] == [high, low];
      assert local[i..] == tail;
    }

    /** One character in front of those already there. */
    static method PutChar(local: array<Byte>, i: nat, c: Byte)
      requires i < local.Length
      modifies local
      ensures local[i..] == [c] + old(local[i + 1..])
    {
      local[i] := c;
    }

    /** The loop over single digits. */
    static method FillDigits(t: Uint64, base: nat, local: array<Byte>) returns (digit: nat)
      requires local.Length == CACHE_SIZE && 2 <= base <= 16 && base != 16
      modifies local
      ensures 1 <= digit <= CACHE_SIZE
      ensures local[CACHE_SIZE - digit..] == Numeral(t, base)
    {
      hide Digit, Numeral, Quo, Rem, DigitsLeft;
      NumeralFits(t, base);
      var val: nat, i := t, CACHE_SIZE;
      digit := 0;
      var again := true;
      ghost var done: Str := [];
      while again
        invariant i == CACHE_SIZE - digit && digit <= CACHE_SIZE && local[i..] == done
        invariant Numeral(t, base) == (if again then Numeral(val, base) else DigitsLeft(val, base)) + done
        invariant if again then i > 0 else val == 0 && digit >= 1
        decreases again, i
      {
        DigitMoved(val, base, done);
        i := i - 1;
        PutChar(local, i, Digit(base, Rem(val, base)));
        done := [Digit(base, Rem(val, base))] + done;
        val := Quo(val, base);
        digit := digit + 1;
        again := val != 0 && i > 0;
      }
      NoDigitsLeft(base);
    }

    /**
     Prints t in the base, padded to the width, provided more than 64 bytes are
     free; otherwise prints nothing. A width outside 0 to 64 would take the
     padding beyond the local buffer: a negative one is read as a huge one.
     */
    method WriteULongLong(t: Uint64, width: nat, base: nat)
      requires Valid() && 2 <= base <= 16 && width <= CACHE_SIZE
      modifies this, buf
      ensures Valid()
      ensures Text() == old(Text()) + (if old(Room()) > CACHE_SIZE then Padded(Numeral(t, base), width) else [])
    {
      hide Numeral;
      if buf.Length - cur > CACHE_SIZE {
        var local := new Byte[CACHE_SIZE];
        var digit;
        if base == 10 || base == 16 {
          digit := FillPairs(t, base, local);
        } else {
          digit := FillDigits(t, base, local);
        }
        digit := Pad(local, digit, width);
        WriteString(local[CACHE_SIZE - digit..]);
      }
    }

    /** The loop that puts zeros in front until the width is reached. */
    static method Pad(local: array<Byte>, length: nat, width: nat) returns (digit: nat)
      requires local.Length == CACHE_SIZE && length <= CACHE_SIZE && width <= CACHE_SIZE
      modifies local
      ensures digit <= CACHE_SIZE
      ensures local[CACHE_SIZE - digit..] == Padded(old(local[CACHE_SIZE - length..]), width)
    {
      hide Zeros, Padded;
      ghost var numeral := local[CACHE_SIZE - length..];
      ghost var done := numeral;
      digit := length;
      MoreZeros(0, numeral);
      while digit < width
        invariant length <= digit <= CACHE_SIZE && (digit <= width || digit == length)
        invariant local[CACHE_SIZE - digit..] == done == Zeros(digit - length) + numeral
      {
        MoreZeros(digit - length, numeral);
        done := [ZERO] + done;
        digit := digit + 1;
        PutChar(local, CACHE_SIZE - digit, ZERO);
      }
      PaddedIs(numeral, width);
    }

    /** A sign when it fits, then the magnitude when more than 64 bytes are left. */
    method WriteLongLong(t: int, width: nat, base: nat)
      requires Valid() && -TWO_63 <= t < TWO_63 && 2 <= base <= 16 && width <= CACHE_SIZE
      modifies this, buf
      ensures Valid()
      ensures var magnitude := if t < 0 then -t else t;
              var sign := if t < 0 && old(Room()) > 1 then [MINUS] else [];
              Text() == old(Text()) + sign
                      + (if old(Room()) - |sign| > CACHE_SIZE then Padded(Numeral(magnitude, base), width) else [])
    {
      hide Numeral, Padded;
      var u := t;
      if t < 0 {
        u := -t;
        WriteChar(MINUS);
      }
      WriteULongLong(u, width, base);
    }
  }
}
