/** `MathUtils`: positional notation in an arbitrary digit alphabet, the decimal length of
  * an unsigned 64-bit number, one hexadecimal digit, and minimum and maximum over nullable
  * integers. Integers are unbounded here; the C# widths are subset types. */
module MathUtils {
  import opened Wrappers
  import Formats
  import Bits

  /** `long` */
  newtype int64 = x: int | -0x8000_0000_0000_0000 <= x < 0x8000_0000_0000_0000

  /** The 62-character alphabet `Int64ToBase` uses by default. */
  const Alphanumeric62: string := "0123456789ABCDEFGHIJKLMNOPQRSTUVWXYZabcdefghijklmnopqrstuvwxyz"

  /** C#'s integer `/`: the quotient truncated toward zero. */
  function Quot(a: int, b: int): int
    requires b > 0
  {
    if a >= 0 then a / b else -((-a) / b)
  }

  /** C#'s integer `%`: what `Quot` leaves over, carrying the sign of `a`. */
  function Rem(a: int, b: int): int
    requires b > 0
  {
    if a >= 0 then a % b else -((-a) % b)
  }

  /** The two make up the dividend, and the remainder is smaller than the divisor and of
    * the dividend's sign. */
  lemma QuotRem(a: int, b: int)
    requires b > 0
    ensures a == b * Quot(a, b) + Rem(a, b)
    ensures -b < Rem(a, b) < b
    ensures a >= 0 ==> 0 <= Rem(a, b) && 0 <= Quot(a, b)
    ensures a <= 0 ==> Rem(a, b) <= 0 && Quot(a, b) <= 0
  {
  }

  // ----- Base conversion -----

  /** One division step of positional notation: a number at least the base has a smaller,
    * positive quotient. */
  lemma DivStep(x: nat, b: nat)
    requires b >= 2 && x >= b
    ensures 1 <= x / b < x
    ensures x == (x / b) * b + x % b && 0 <= x % b < b
  {
    var q, r := x / b, x % b;
    assert x == b * q + r && 0 <= r < b;
    assert q >= 1 by {
      if q <= 0 {
        MulNonNegative(b, -q);
      }
    }
    assert b * q >= 2 * q by {
      MulNonNegative(b - 2, q);
    }
  }

  lemma MulNonNegative(a: int, b: int)
    requires a >= 0 && b >= 0
    ensures a * b >= 0
  {
  }

  /** The last character `ToBase` writes is that of the remainder; the ones before it
    * write the quotient, which is nothing once the quotient is zero. */
  lemma ToBaseStep(x: nat, chars: string)
    requires |chars| >= 2 || (|chars| == 1 && x == 0)
    ensures x > 0 && |chars| >= 2 ==> x / |chars| < x
    ensures 0 <= x % |chars| < |chars|
    ensures ToBase(x, chars) ==
      (if x / |chars| == 0 then [] else ToBase(x / |chars|, chars)) + [chars[x % |chars|]]
  {
    if x < |chars| {
      assert x / |chars| == 0 && x % |chars| == x;
    } else if |chars| >= 2 {
      DivStep(x, |chars|);
    }
  }

  /** The digit values of `x` in base `b`, most significant first, without leading zeros. */
  function Digits(x: nat, b: nat): (d: seq<nat>)
    requires b >= 2 || (b == 1 && x == 0)
    decreases x
  {
    if x < b then [x] else DivStep(x, b); Digits(x / b, b) + [x % b]
  }

  /** The number a sequence of digit values stands for in base `b`. */
  function FromDigits(d: seq<nat>, b: nat): nat
  {
    if |d| == 0 then 0 else FromDigits(d[..|d| - 1], b) * b + d[|d| - 1]
  }

  /** Every number has a non-empty digit string of digits below the base, with no leading
    * zero unless the number is zero, which reads back as the number. */
  lemma {:induction false} DigitsShape(x: nat, b: nat)
    requires b >= 2 || (b == 1 && x == 0)
    ensures |Digits(x, b)| >= 1
    ensures forall i :: 0 <= i < |Digits(x, b)| ==> Digits(x, b)[i] < b
    ensures Digits(x, b)[0] == 0 <==> x == 0
    ensures FromDigits(Digits(x, b), b) == x
    decreases x
  {
    if x >= b {
      DivStep(x, b);
      var front := Digits(x / b, b);
      DigitsShape(x / b, b);
      var d := front + [x % b];
      assert d[..|d| - 1] == front;
      assert forall i :: 0 <= i < |front| ==> d[i] == front[i];
      assert FromDigits(d, b) == (x / b) * b + x % b;
    }
  }

  /** `x` written in the digit alphabet `chars`: the digit of value `v` is `chars[v]`. */
  function ToBase(x: nat, chars: string): (r: string)
    requires |chars| >= 2 || (|chars| == 1 && x == 0)
    decreases x
  {
    if x < |chars| then [chars[x]]
    else DivStep(x, |chars|); ToBase(x / |chars|, chars) + [chars[x % |chars|]]
  }

  /** `ToBase` spells out `Digits` character by character. */
  lemma {:induction false} ToBaseSpells(x: nat, chars: string)
    requires |chars| >= 2 || (|chars| == 1 && x == 0)
    ensures |ToBase(x, chars)| == |Digits(x, |chars|)|
    ensures forall i :: 0 <= i < |ToBase(x, chars)| ==>
      Digits(x, |chars|)[i] < |chars| && ToBase(x, chars)[i] == chars[Digits(x, |chars|)[i]]
    decreases x
  {
    DigitsShape(x, |chars|);
    if x >= |chars| {
      DivStep(x, |chars|);
      ToBaseSpells(x / |chars|, chars);
    }
  }

  /** The position of the first occurrence of `c` in `chars` (`string.IndexOf(char)`), or -1. */
  function IndexOfChar(chars: string, c: char): (i: int)
    ensures -1 <= i < |chars|
    ensures i >= 0 ==> chars[i] == c && forall j :: 0 <= j < i ==> chars[j] != c
    ensures i == -1 ==> forall j :: 0 <= j < |chars| ==> chars[j] != c
  {
    if |chars| == 0 then -1
    else if chars[|chars| - 1] == c && IndexOfChar(chars[..|chars| - 1], c) == -1 then |chars| - 1
    else IndexOfChar(chars[..|chars| - 1], c)
  }

  /** Reading a string of alphabet characters as a number, in exact integers: each
    * character counts as its position in the alphabet. */
  function FromBase(s: string, chars: string): int
  {
    if |s| == 0 then 0
    else FromBase(s[..|s| - 1], chars) * |chars| + IndexOfChar(chars, s[|s| - 1])
  }

  predicate Distinct(chars: string)
  {
    forall i, j :: 0 <= i < j < |chars| ==> chars[i] != chars[j]
  }

  /** Over an alphabet without repeated characters, reading back what `ToBase` wrote gives
    * the number. */
  lemma {:induction false} FromBaseToBase(x: nat, chars: string)
    requires |chars| >= 2 || (|chars| == 1 && x == 0)
    requires Distinct(chars)
    ensures FromBase(ToBase(x, chars), chars) == x
    decreases x
  {
    var b := |chars|;
    if x < b {
      assert ToBase(x, chars)[..0] == [];
    } else {
      DivStep(x, b);
      var front := ToBase(x / b, chars);
      FromBaseToBase(x / b, chars);
      var s := front + [chars[x % b]];
      assert s[..|s| - 1] == front;
      assert IndexOfChar(chars, chars[x % b]) == x % b;
      assert FromBase(s, chars) == (x / b) * b + x % b;
    }
  }

  /** The value `Int64ToBase` computes: a divisor of zero throws, a negative input throws
    * unless its C# remainder is zero (a negative index otherwise), and then gives the
    * first character alone, because the truncated quotient is not positive. */
  function ToBaseOfInt64(input: int64, chars: string): Result<string>
    requires |chars| != 1 || input <= 0
  {
    if |chars| == 0 then Err(DivideByZero)
    else if input < 0 then
      if Rem(input as int, |chars|) == 0 then Ok([chars[0]]) else Err(IndexOutOfRange)
    else if |chars| == 1 then Ok([chars[0]])
    else Ok(ToBase(input as nat, chars))
  }

  /** `Int64ToBase(input, baseChars)`: a do-while loop that prepends the character of the
    * remainder and divides, until the quotient is no longer positive. An alphabet of one
    * character never divides a positive input down, so those inputs are excluded. */
  method Int64ToBase(input: int64, baseChars: string) returns (r: Result<string>)
    requires |baseChars| != 1 || input <= 0
    ensures r == ToBaseOfInt64(input, baseChars)
  {
    var targetBase := |baseChars|;
    if targetBase == 0 {
      return Err(DivideByZero);
    }
    var x := input as int;
    QuotRem(x, targetBase);
    var digit := Rem(x, targetBase);
    if digit < 0 {
      return Err(IndexOutOfRange);
    }
    var s := [baseChars[digit]];
    x := Quot(x, targetBase);
    if input < 0 {
      return Ok(s);
    }
    ToBaseStep(input as nat, baseChars);
    s := PrependDigits(x, baseChars, s);
    return Ok(s);
  }

  /** The `while (input > 0)` part of the loop: prepends the characters of `x`, least
    * significant first. */
  method PrependDigits(x0: nat, chars: string, s0: string) returns (s: string)
    requires |chars| >= 2 || x0 == 0
    ensures s == (if x0 == 0 then [] else ToBase(x0, chars)) + s0
  {
    var targetBase := |chars|;
    var x := x0;
    s := s0;
    while x > 0
      invariant 0 <= x <= x0
      invariant (if x0 == 0 then [] else ToBase(x0, chars)) + s0 == (if x == 0 then [] else ToBase(x, chars)) + s
      decreases x
    {
      ToBaseStep(x, chars);
      var digit := Rem(x, targetBase);
      var q := Quot(x, targetBase);
      assert digit == x % targetBase && q == x / targetBase;
      ghost var front := if q == 0 then [] else ToBase(q, chars);
      assert ToBase(x, chars) + s == front + ([chars[digit]] + s);
      s := [chars[digit]] + s;
      x := q;
    }
  }

  /** What `Int64ToBase` promises for a non-negative input: a non-empty string over the
    * alphabet, with no leading zero character unless the input is zero, that reads back as
    * the input when the alphabet has no repeated characters. */
  lemma Int64ToBaseOk(input: int64, chars: string)
    requires input >= 0 && |chars| >= 2
    ensures ToBaseOfInt64(input, chars).Ok?
    ensures |ToBaseOfInt64(input, chars).value| >= 1
    ensures forall i :: 0 <= i < |ToBaseOfInt64(input, chars).value| ==>
      ToBaseOfInt64(input, chars).value[i] in chars
    ensures Distinct(chars) ==>
      (ToBaseOfInt64(input, chars).value[0] == chars[0] <==> input == 0)
    ensures Distinct(chars) ==> FromBase(ToBaseOfInt64(input, chars).value, chars) == input as int
  {
    var x := input as nat;
    ToBaseSpells(x, chars);
    DigitsShape(x, |chars|);
    if Distinct(chars) {
      FromBaseToBase(x, chars);
      assert ToBase(x, chars)[0] == chars[Digits(x, |chars|)[0]];
    }
  }

  /** Zero is written as the first character of the alphabet, and so is a negative multiple
    * of the base; any other negative input fails. */
  lemma Int64ToBaseZeroAndNegative(input: int64, chars: string)
    requires |chars| >= 2 && input <= 0
    ensures input == 0 ==> ToBaseOfInt64(input, chars) == Ok([chars[0]])
    ensures input < 0 ==>
      (ToBaseOfInt64(input, chars).Ok? <==> (-(input as int)) % |chars| == 0)
    ensures ToBaseOfInt64(input, chars).Ok? ==> ToBaseOfInt64(input, chars) == Ok([chars[0]])
  {
  }

  // ----- Decimal length -----

  /** `ulong` */
  newtype uint64 = x: int | 0 <= x < 0x1_0000_0000_0000_0000

  /** `IntLength(i)`, by comparisons against the powers of ten. */
  function IntLength(i: uint64): (n: int)
  {
    if i < 10000000000 then
      if i < 10 then 1
      else if i < 100 then 2
      else if i < 1000 then 3
      else if i < 10000 then 4
      else if i < 100000 then 5
      else if i < 1000000 then 6
      else if i < 10000000 then 7
      else if i < 100000000 then 8
      else if i < 1000000000 then 9
      else 10
    else if i < 100000000000 then 11
    else if i < 1000000000000 then 12
    else if i < 10000000000000 then 13
    else if i < 100000000000000 then 14
    else if i < 1000000000000000 then 15
    else if i < 10000000000000000 then 16
    else if i < 100000000000000000 then 17
    else if i < 1000000000000000000 then 18
    else if i < 10000000000000000000 then 19
    else 20
  }

  /** The powers of ten `IntLength` compares against. */
  lemma Pow10Table()
    ensures Formats.Pow10(1) == 10 && Formats.Pow10(2) == 100 && Formats.Pow10(3) == 1000
    ensures Formats.Pow10(4) == 10000 && Formats.Pow10(5) == 100000
    ensures Formats.Pow10(6) == 1000000 && Formats.Pow10(7) == 10000000
    ensures Formats.Pow10(8) == 100000000 && Formats.Pow10(9) == 1000000000
    ensures Formats.Pow10(10) == 10000000000 && Formats.Pow10(11) == 100000000000
    ensures Formats.Pow10(12) == 1000000000000 && Formats.Pow10(13) == 10000000000000
    ensures Formats.Pow10(14) == 100000000000000 && Formats.Pow10(15) == 1000000000000000
    ensures Formats.Pow10(16) == 10000000000000000
    ensures Formats.Pow10(17) == 100000000000000000
    ensures Formats.Pow10(18) == 1000000000000000000
    ensures Formats.Pow10(19) == 10000000000000000000
    ensures Formats.Pow10(20) == 100000000000000000000
  {
    assert Formats.Pow10(5) == 100000;
    assert Formats.Pow10(10) == 10000000000;
    assert Formats.Pow10(15) == 1000000000000000;
  }

  /** A number at least `10^(k-1)` and below `10^k` has `k` decimal digits. */
  lemma {:induction false} DigitCount(x: nat, k: nat)
    requires k >= 1 && (k == 1 || Formats.Pow10(k - 1) <= x) && x < Formats.Pow10(k)
    ensures |Formats.Digits(x)| == k
    decreases k
  {
    if k > 1 {
      if k == 2 {
        assert 1 <= x / 10 < 10;
      } else {
        assert Formats.Pow10(k - 2) <= x / 10 < Formats.Pow10(k - 1);
      }
      DigitCount(x / 10, k - 1);
    }
  }

  /** `IntLength` is the number of decimal digits `ToString()` writes, from 1 to 20. */
  lemma IntLengthDigits(i: uint64)
    ensures IntLength(i) == |Formats.Digits(i as nat)|
    ensures 1 <= IntLength(i) <= 20
  {
    Pow10Table();
    var n := IntLength(i);
    DigitCount(i as nat, n);
  }

  // ----- Hexadecimal digit -----

  /** A C# `char`: one UTF-16 code unit. */
  newtype CodeUnit = x: int | 0 <= x < 0x1_0000

  /** `IntToHex(n)`: `(char)(n + 48)` up to 9 and `(char)(n - 10 + 97)` above. The sum is
    * an `int`, wrapping past `int.MaxValue`, and the cast keeps its low 16 bits, so every
    * `int` gives a code unit; 0..15 give the lower-case hexadecimal digits. */
  function IntToHex(n: Formats.int32): (c: CodeUnit)
    ensures 0 <= n < 16 ==> c as int == Formats.HexChar(n as int) as int
    ensures 0 <= n < 16 ==> Formats.HexValue(c as int as char) == n as int
    ensures (c as int - (if n <= 9 then n as int + 48 else n as int + 87)) % 0x1_0000 == 0
  {
    var sum := if n <= 9 then n as int + 48 else Formats.Wrap32(n as int - 10 + 97) as int;
    LowBits(sum, if n <= 9 then n as int + 48 else n as int + 87);
    (sum % 0x1_0000) as CodeUnit
  }

  /** Two numbers congruent modulo 2^32 have the same low 16 bits. */
  lemma LowBits(x: int, y: int)
    requires (x - y) % Bits.TwoTo32 == 0
    ensures (x % 0x1_0000 - y) % 0x1_0000 == 0
  {
    var k, q := (x - y) / Bits.TwoTo32, x / 0x1_0000;
    assert x - y == Bits.TwoTo32 * k;
    assert x % 0x1_0000 == x - 0x1_0000 * q;
    assert x % 0x1_0000 - y == 0x1_0000 * (0x1_0000 * k - q);
    Formats.ModUnique(x % 0x1_0000 - y, 0x1_0000, 0x1_0000 * k - q, 0);
  }

  /** Below `'0' - 0` the cast wraps: -49 gives U+FFFF, and a value 2^16 higher gives the
    * same code unit. */
  lemma IntToHexWraps(n: Formats.int32)
    requires 9 < n && n as int + 0x1_0000 < 0x8000_0000
    ensures IntToHex(-49) == 0xFFFF
    ensures IntToHex((n as int + 0x1_0000) as Formats.int32) == IntToHex(n)
  {
    var m := (n as int + 0x1_0000) as Formats.int32;
    assert (IntToHex(m) as int - IntToHex(n) as int) % 0x1_0000 == 0 by {
      Congruent(IntToHex(m) as int, n as int + 0x1_0000 + 87, IntToHex(n) as int, n as int + 87);
    }
    Formats.MulSmall(0x1_0000, (IntToHex(m) as int - IntToHex(n) as int) / 0x1_0000);
  }

  /** Congruence modulo 2^16 is transitive, and adding 2^16 keeps it. */
  lemma Congruent(a: int, x: int, b: int, y: int)
    requires (a - x) % 0x1_0000 == 0 && (b - y) % 0x1_0000 == 0 && x == y + 0x1_0000
    ensures (a - b) % 0x1_0000 == 0
  {
    var i, j := (a - x) / 0x1_0000, (b - y) / 0x1_0000;
    assert a - b == 0x1_0000 * (i - j + 1);
  }

  // ----- Nullable minimum and maximum -----

  /** `Min(int?, int?)`: a null argument is ignored; null only when both are. */
  function Min(a: Option<Formats.int32>, b: Option<Formats.int32>): (r: Option<Formats.int32>)
    ensures r.None? <==> a.None? && b.None?
    ensures r.Some? ==> (r == a || r == b)
    ensures r.Some? ==> (a.Some? ==> r.value <= a.value) && (b.Some? ==> r.value <= b.value)
  {
    if a.None? then b else if b.None? then a else if a.value <= b.value then a else b
  }

  /** `Max(int?, int?)`: a null argument is ignored; null only when both are. */
  function Max(a: Option<Formats.int32>, b: Option<Formats.int32>): (r: Option<Formats.int32>)
    ensures r.None? <==> a.None? && b.None?
    ensures r.Some? ==> (r == a || r == b)
    ensures r.Some? ==> (a.Some? ==> r.value >= a.value) && (b.Some? ==> r.value >= b.value)
  {
    if a.None? then b else if b.None? then a else if a.value >= b.value then a else b
  }
}
