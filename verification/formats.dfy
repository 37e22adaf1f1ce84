/** The .NET integer formatting and parsing the token layout relies on, under the invariant
  * culture: `int.ToString()`, `ToString("D2")`, `ToString("x8")`, `Convert.ToInt32(string)`
  * and `int.Parse(s, NumberStyles.HexNumber)`. */
module Formats {
  import opened Wrappers
  import opened Bits

  /** `int`, the 32-bit signed integer. */
  newtype int32 = x: int | -0x8000_0000 <= x < 0x8000_0000

  /** Unchecked 32-bit arithmetic: the `int` congruent to `x` modulo 2^32. */
  function Wrap32(x: int): (r: int32)
    ensures (r as int - x) % TwoTo32 == 0
    ensures -0x8000_0000 <= x < 0x8000_0000 ==> r as int == x
  {
    ((x + 0x8000_0000) % TwoTo32 - 0x8000_0000) as int32
  }

  /** Wrapping ignores multiples of 2^32. */
  lemma WrapShift(y: int, k: int)
    ensures Wrap32(y + TwoTo32 * k) == Wrap32(y)
  {
    var a := y + 0x8000_0000;
    var q := a / TwoTo32;
    assert a + TwoTo32 * k == TwoTo32 * (q + k) + a % TwoTo32;
  }

  function DigitChar(d: int): (c: char)
    requires 0 <= d < 10
    ensures '0' <= c <= '9'
  {
    ('0' as int + d) as char
  }

  /** A lower-case hexadecimal digit. */
  function HexChar(d: int): (c: char)
    requires 0 <= d < 16
    ensures HexValue(c) == d
    ensures '0' <= c <= '9' || 'a' <= c <= 'f'
  {
    if d < 10 then ('0' as int + d) as char else ('a' as int + d - 10) as char
  }

  predicate IsDigit(c: char)
  {
    '0' <= c <= '9'
  }

  /** The value of a hexadecimal digit in either case, `-1` for any other character. */
  function HexValue(c: char): int
  {
    if '0' <= c <= '9' then c as int - '0' as int
    else if 'a' <= c <= 'f' then c as int - 'a' as int + 10
    else if 'A' <= c <= 'F' then c as int - 'A' as int + 10
    else -1
  }

  /** The decimal digits of a non-negative number, without leading zeros. */
  function Digits(n: nat): (r: string)
    ensures |r| >= 1
  {
    if n < 10 then [DigitChar(n)] else Digits(n / 10) + [DigitChar(n % 10)]
  }

  /** `int.ToString()` */
  function DecimalString(n: int): string
  {
    if n < 0 then "-" + Digits(-n) else Digits(n)
  }

  /** `string.PadLeft(width, c)` */
  function PadLeft(s: string, width: nat, c: char): (r: string)
    ensures |r| == if |s| < width then width else |s|
    ensures |s| < width ==> r == seq(width - |s|, _ => c) + s
    ensures |s| >= width ==> r == s
    decreases width - |s|
  {
    if |s| < width then
      var r := PadLeft([c] + s, width, c);
      assert seq(width - |s| - 1, _ => c) + ([c] + s) == seq(width - |s|, _ => c) + s;
      r
    else s
  }

  /** `ToString("D2")`: at least two digits, zero-padded, after the sign. */
  function FormatD2(n: int): string
  {
    if n < 0 then "-" + PadLeft(Digits(-n), 2, '0') else PadLeft(Digits(n), 2, '0')
  }

  /** The last `k` hexadecimal digits of `u`, most significant first. */
  function Nibbles(u: nat, k: nat): (r: string)
    ensures |r| == k
  {
    if k == 0 then [] else Nibbles(u / 16, k - 1) + [HexChar(u % 16)]
  }

  /** `ToString("x8")` on an `int`: the 32-bit two's-complement pattern as lower-case
    * hexadecimal, padded to eight digits. The pattern is below 2^32, so the eight digits
    * are the whole of it. */
  function FormatX8(n: int32): (r: string)
    ensures |r| == 8
  {
    Nibbles(if n < 0 then n as int + TwoTo32 else n as int, 8)
  }

  function Pow10(k: nat): (p: nat)
    ensures p >= 1
  {
    if k == 0 then 1 else 10 * Pow10(k - 1)
  }

  /** The value of a run of decimal digits. */
  function DecimalValue(s: string): (v: nat)
    requires forall k :: 0 <= k < |s| ==> IsDigit(s[k])
    ensures v < Pow10(|s|)
  {
    if |s| == 0 then 0
    else
      assert IsDigit(s[|s| - 1]);
      DecimalValue(s[..|s| - 1]) * 10 + (s[|s| - 1] as int - '0' as int)
  }

  /** The value of a run of hexadecimal digits. */
  function HexNumber(s: string): (v: nat)
    requires forall k :: 0 <= k < |s| ==> HexValue(s[k]) >= 0
    ensures v < Pow16(|s|)
  {
    if |s| == 0 then 0 else HexNumber(s[..|s| - 1]) * 16 + HexValue(s[|s| - 1])
  }

  function Pow16(k: nat): (p: nat)
    ensures p >= 1
  {
    if k == 0 then 1 else 16 * Pow16(k - 1)
  }

  /** The white space .NET number parsing skips: the space and U+0009..U+000D. */
  predicate IsWhite(c: char)
  {
    c == ' ' || '\t' <= c <= '\r'
  }

  /** A digit of the number style: decimal, or hexadecimal in either case. */
  predicate IsNumeralDigit(c: char, hex: bool)
  {
    if hex then HexValue(c) >= 0 else IsDigit(c)
  }

  /** How many leading characters of `s` are white space. */
  function WhiteRun(s: string): (n: nat)
    ensures n <= |s|
    ensures forall k :: 0 <= k < n ==> IsWhite(s[k])
    ensures n < |s| ==> !IsWhite(s[n])
  {
    if |s| == 0 || !IsWhite(s[0]) then 0 else 1 + WhiteRun(s[1..])
  }

  /** How many leading characters of `s` are digits of the style. */
  function DigitRun(s: string, hex: bool): (n: nat)
    ensures n <= |s|
    ensures forall k :: 0 <= k < n ==> IsNumeralDigit(s[k], hex)
    ensures n < |s| ==> !IsNumeralDigit(s[n], hex)
  {
    if |s| == 0 || !IsNumeralDigit(s[0], hex) then 0 else 1 + DigitRun(s[1..], hex)
  }

  /** Nothing but NUL characters. */
  predicate AllNul(s: string)
  {
    forall k :: 0 <= k < |s| ==> s[k] == '\0'
  }

  /** What the parser reads from a string: the sign and the digits. */
  datatype Numeral = Numeral(negative: bool, digits: string)

  /** The text `int.Parse` accepts: leading white space, a sign when `signed` (`+` or `-`,
    * as the invariant culture writes them), one or more digits, trailing white space, and
    * then nothing but NUL characters, which the parser tolerates at the end. */
  function Scan(s: string, signed: bool, hex: bool): (r: Option<Numeral>)
    ensures r.Some? ==> 1 <= |r.value.digits| <= |s|
    ensures r.Some? ==> forall k :: 0 <= k < |r.value.digits| ==> IsNumeralDigit(r.value.digits[k], hex)
    ensures r.Some? && r.value.negative ==> signed
  {
    var rest := s[WhiteRun(s)..];
    var sign := signed && |rest| > 0 && (rest[0] == '-' || rest[0] == '+');
    var body := if sign then rest[1..] else rest;
    var n := DigitRun(body, hex);
    var tail := body[n..];
    if n == 0 || !AllNul(tail[WhiteRun(tail)..]) then None
    else Some(Numeral(sign && rest[0] == '-', body[..n]))
  }

  /** `Convert.ToInt32(string)`, which is `int.Parse` with `NumberStyles.Integer`: text the
    * style does not accept is a format error, a value outside `int` an overflow. */
  function ParseInt32(s: string): (r: Result<int32>)
    ensures r.Err? ==> r.error in {BadFormat, Overflow}
    ensures r.Err? && r.error == BadFormat <==> Scan(s, true, false).None?
    ensures r.Ok? ==> var m := Scan(s, true, false).value;
      r.value as int == if m.negative then -(DecimalValue(m.digits) as int) else DecimalValue(m.digits)
  {
    match Scan(s, true, false)
    case None => Err(BadFormat)
    case Some(m) =>
      var mag: int := DecimalValue(m.digits);
      var v := if m.negative then -mag else mag;
      if -0x8000_0000 <= v < 0x8000_0000 then Ok(v as int32) else Err(Overflow)
  }

  /** `int.Parse(s, NumberStyles.HexNumber)`: white space around hexadecimal digits in
    * either case, no sign; a value past 32 bits overflows, and one at or past 2^31 reads
    * as its two's-complement negative. */
  function ParseHexInt32(s: string): (r: Result<int32>)
    ensures r.Err? ==> r.error in {BadFormat, Overflow}
    ensures r.Err? && |s| <= 8 ==> r.error == BadFormat
    ensures r.Err? && r.error == BadFormat <==> Scan(s, false, true).None?
    ensures r.Ok? ==> (r.value as int - HexNumber(Scan(s, false, true).value.digits)) % TwoTo32 == 0
  {
    match Scan(s, false, true)
    case None => Err(BadFormat)
    case Some(m) =>
      Pow16Grows(|m.digits|, 8);
      Pow16Eight();
      var v := HexNumber(m.digits);
      if v >= TwoTo32 then Err(Overflow)
      else if v >= 0x8000_0000 then Ok((v - TwoTo32) as int32)
      else Ok(v as int32)
  }

  /** A run of characters none of which is white space starts no white run. */
  lemma WhiteRunAfter(lead: string, s: string)
    requires forall k :: 0 <= k < |lead| ==> IsWhite(lead[k])
    requires |s| == 0 || !IsWhite(s[0])
    ensures WhiteRun(lead + s) == |lead|
  {
    assert forall k :: 0 <= k < |lead| ==> (lead + s)[k] == lead[k];
    assert |s| > 0 ==> (lead + s)[|lead|] == s[0];
  }

  /** A run of digits followed by text that does not start with a digit. */
  lemma DigitRunAfter(d: string, s: string, hex: bool)
    requires forall k :: 0 <= k < |d| ==> IsNumeralDigit(d[k], hex)
    requires |s| == 0 || !IsNumeralDigit(s[0], hex)
    ensures DigitRun(d + s, hex) == |d|
  {
    assert forall k :: 0 <= k < |d| ==> (d + s)[k] == d[k];
    assert |s| > 0 ==> (d + s)[|d|] == s[0];
  }

  /** Text of the accepted shape, unsigned: white space, digits, white space. */
  lemma ScanPlain(lead: string, d: string, trail: string, signed: bool, hex: bool)
    requires forall k :: 0 <= k < |lead| ==> IsWhite(lead[k])
    requires forall k :: 0 <= k < |trail| ==> IsWhite(trail[k])
    requires |d| >= 1 && forall k :: 0 <= k < |d| ==> IsNumeralDigit(d[k], hex)
    requires !IsWhite(d[0]) && d[0] != '-' && d[0] != '+'
    ensures Scan(lead + d + trail, signed, hex) == Some(Numeral(false, d))
  {
    var s := lead + d + trail;
    WhiteRunAfter(lead, d + trail);
    assert s == lead + (d + trail);
    var rest := s[|lead|..];
    assert rest == d + trail;
    DigitRunAfter(d, trail, hex);
    var tail := rest[|d|..];
    assert tail == trail;
    WhiteRunAfter(trail, []);
    assert trail + [] == trail;
    assert rest[..|d|] == d;
  }

  /** Text of the accepted shape with a minus sign: white space, `-`, digits, white space. */
  lemma ScanNegative(lead: string, d: string, trail: string)
    requires forall k :: 0 <= k < |lead| ==> IsWhite(lead[k])
    requires forall k :: 0 <= k < |trail| ==> IsWhite(trail[k])
    requires |d| >= 1 && forall k :: 0 <= k < |d| ==> IsDigit(d[k])
    ensures Scan(lead + (['-'] + d) + trail, true, false) == Some(Numeral(true, d))
  {
    var s := lead + (['-'] + d) + trail;
    WhiteRunAfter(lead, ['-'] + d + trail);
    assert s == lead + (['-'] + d + trail);
    var rest := s[|lead|..];
    assert rest == ['-'] + (d + trail);
    var body := rest[1..];
    assert body == d + trail;
    DigitRunAfter(d, trail, false);
    assert body[|d|..] == trail;
    WhiteRunAfter(trail, []);
    assert trail + [] == trail;
    assert body[..|d|] == d;
  }

  /** The decimal digits of `n` are digits, and they read back as `n`. */
  lemma {:induction false} DigitsValue(n: nat)
    ensures forall k :: 0 <= k < |Digits(n)| ==> IsDigit(Digits(n)[k])
    ensures DecimalValue(Digits(n)) == n
  {
    var s := Digits(n);
    if n < 10 {
      assert s[..0] == [];
    } else {
      DigitsValue(n / 10);
      assert s[..|s| - 1] == Digits(n / 10);
      assert forall k :: 0 <= k < |s| - 1 ==> s[k] == Digits(n / 10)[k];
    }
  }

  /** `Convert.ToInt32` reads `int.ToString()` back, with any white space around it. */
  lemma ParseDecimalString(n: int32, lead: string, trail: string)
    requires forall k :: 0 <= k < |lead| ==> IsWhite(lead[k])
    requires forall k :: 0 <= k < |trail| ==> IsWhite(trail[k])
    ensures ParseInt32(lead + DecimalString(n as int) + trail) == Ok(n)
  {
    if n < 0 {
      ParseNegativeString(n, lead, trail);
    } else {
      ParsePlainString(n, lead, trail);
    }
  }

  lemma ParsePlainString(n: int32, lead: string, trail: string)
    requires 0 <= n
    requires forall k :: 0 <= k < |lead| ==> IsWhite(lead[k])
    requires forall k :: 0 <= k < |trail| ==> IsWhite(trail[k])
    ensures ParseInt32(lead + DecimalString(n as int) + trail) == Ok(n)
  {
    var d := Digits(n as nat);
    assert DecimalString(n as int) == d;
    DigitsValue(n as nat);
    DigitNotWhite(d[0]);
    ScanPlain(lead, d, trail, true, false);
    ParseScanned(lead + d + trail, Numeral(false, d));
  }

  lemma ParseNegativeString(n: int32, lead: string, trail: string)
    requires n < 0
    requires forall k :: 0 <= k < |lead| ==> IsWhite(lead[k])
    requires forall k :: 0 <= k < |trail| ==> IsWhite(trail[k])
    ensures ParseInt32(lead + DecimalString(n as int) + trail) == Ok(n)
  {
    var d := Digits(-(n as int));
    assert DecimalString(n as int) == ['-'] + d;
    DigitsValue(-(n as int));
    ScanNegative(lead, d, trail);
    ParseScannedNegative(lead + (['-'] + d) + trail, Numeral(true, d));
  }

  /** The value `Convert.ToInt32` gives for text it scans as negative digits. */
  lemma ParseScannedNegative(s: string, m: Numeral)
    requires Scan(s, true, false) == Some(m) && m.negative
    requires DecimalValue(m.digits) <= 0x8000_0000
    ensures ParseInt32(s) == Ok((-(DecimalValue(m.digits) as int)) as int32)
  {
  }

  /** The value of a decimal digit. */
  function DigitValue(c: char): int
  {
    c as int - '0' as int
  }

  /** `Convert.ToInt32` of a one-character string: a digit reads as itself, anything else
    * (white space or a sign alone, NUL) is a format error. */
  lemma ParseOne(c: char)
    ensures ParseInt32([c]) == if IsDigit(c) then Ok(DigitValue(c) as int32) else Err(BadFormat)
  {
    var s := [c];
    assert s[1..] == [] && s[0..] == s;
    if IsDigit(c) {
      assert DecimalValue(s) == DigitValue(c) by {
        assert s[..0] == [];
      }
      assert Scan(s, true, false) == Some(Numeral(false, s)) by {
        assert WhiteRun(s) == 0;
        assert DigitRun(s, false) == 1;
        assert s[..1] == s;
      }
      ParseScanned(s, Numeral(false, s));
    } else {
      assert Scan(s, true, false).None? by {
        if IsWhite(c) {
          assert WhiteRun(s) == 1;
        } else {
          assert WhiteRun(s) == 0;
          assert DigitRun(s, false) == 0;
          assert DigitRun(s[1..], false) == 0;
        }
      }
    }
  }

  /** `Convert.ToInt32` of a two-character string, case by case: two digits; a digit after
    * white space or a sign; a digit before white space or a NUL; anything else is a format
    * error. So the two characters read as a number from -9 to 99. */
  lemma ParseTwo(a: char, b: char)
    ensures ParseInt32([a, b]) ==
      if IsDigit(a) && IsDigit(b) then Ok((10 * DigitValue(a) + DigitValue(b)) as int32)
      else if (IsWhite(a) || a == '+') && IsDigit(b) then Ok(DigitValue(b) as int32)
      else if a == '-' && IsDigit(b) then Ok(-DigitValue(b) as int32)
      else if IsDigit(a) && (IsWhite(b) || b == '\0') then Ok(DigitValue(a) as int32)
      else Err(BadFormat)
    ensures ParseInt32([a, b]).Ok? ==> -9 <= ParseInt32([a, b]).value <= 99
  {
    if IsDigit(a) && IsDigit(b) {
      ParseTwoDigits(a, b);
    } else if (IsWhite(a) || a == '+') && IsDigit(b) {
      ParseTwoLead(a, b);
    } else if a == '-' && IsDigit(b) {
      ParseTwoMinus(b);
    } else if IsDigit(a) && (IsWhite(b) || b == '\0') {
      ParseTwoTrail(a, b);
    } else {
      ParseTwoRejects(a, b);
    }
  }

  lemma ParseTwoDigits(a: char, b: char)
    requires IsDigit(a) && IsDigit(b)
    ensures ParseInt32([a, b]) == Ok((10 * DigitValue(a) + DigitValue(b)) as int32)
  {
    var s := [a, b];
    assert s[1..] == [b] && s[0..] == s && [b][1..] == [];
    assert DecimalValue(s) == 10 * DigitValue(a) + DigitValue(b) by {
      assert s[..1] == [a] && [a][..0] == [];
    }
    assert Scan(s, true, false) == Some(Numeral(false, s)) by {
      assert WhiteRun(s) == 0;
      assert DigitRun(s, false) == 2;
      assert s[..2] == s && s[2..] == [];
    }
    ParseScanned(s, Numeral(false, s));
  }

  lemma ParseTwoLead(a: char, b: char)
    requires (IsWhite(a) || a == '+') && IsDigit(b)
    ensures ParseInt32([a, b]) == Ok(DigitValue(b) as int32)
  {
    var s := [a, b];
    assert s[1..] == [b] && s[0..] == s && [b][1..] == [];
    assert DecimalValue([b]) == DigitValue(b) by {
      assert [b][..0] == [];
    }
    assert Scan(s, true, false) == Some(Numeral(false, [b])) by {
      assert DigitRun([b], false) == 1;
      assert [b][..1] == [b];
    }
    ParseScanned(s, Numeral(false, [b]));
  }

  lemma ParseTwoMinus(b: char)
    requires IsDigit(b)
    ensures ParseInt32(['-', b]) == Ok(-DigitValue(b) as int32)
  {
    var s := ['-', b];
    assert s[1..] == [b] && s[0..] == s && [b][1..] == [];
    assert DecimalValue([b]) == DigitValue(b) by {
      assert [b][..0] == [];
    }
    assert Scan(s, true, false) == Some(Numeral(true, [b])) by {
      assert WhiteRun(s) == 0;
      assert DigitRun([b], false) == 1;
      assert [b][..1] == [b];
    }
  }

  lemma ParseTwoTrail(a: char, b: char)
    requires IsDigit(a) && (IsWhite(b) || b == '\0')
    ensures ParseInt32([a, b]) == Ok(DigitValue(a) as int32)
  {
    var s := [a, b];
    assert s[1..] == [b] && s[0..] == s && [b][1..] == [];
    assert DecimalValue([a]) == DigitValue(a) by {
      assert [a][..0] == [];
    }
    assert Scan(s, true, false) == Some(Numeral(false, [a])) by {
      assert WhiteRun(s) == 0;
      assert DigitRun(s, false) == 1;
      assert s[..1] == [a];
    }
    ParseScanned(s, Numeral(false, [a]));
  }

  lemma ParseTwoRejects(a: char, b: char)
    requires !(IsDigit(a) && IsDigit(b)) && !((IsWhite(a) || a == '+') && IsDigit(b))
    requires !(a == '-' && IsDigit(b)) && !(IsDigit(a) && (IsWhite(b) || b == '\0'))
    ensures ParseInt32([a, b]) == Err(BadFormat)
  {
    var s := [a, b];
    assert s[1..] == [b] && s[0..] == s && s[2..] == [] && [b][1..] == [];
    var rest := s[WhiteRun(s)..];
    var sign := |rest| > 0 && (rest[0] == '-' || rest[0] == '+');
    var body := if sign then rest[1..] else rest;
    var n := DigitRun(body, false);
    var tail := body[n..];
    var w := WhiteRun(tail);
    if IsWhite(a) {
      assert WhiteRun(s) == 1 + WhiteRun([b]);
      if IsWhite(b) {
        assert WhiteRun([b]) == 1 + WhiteRun([]);
        assert rest == [];
      } else {
        assert WhiteRun([b]) == 0;
        assert rest == [b];
        assert n == 0;
      }
    } else if a == '-' || a == '+' {
      assert WhiteRun(s) == 0;
      assert body == [b];
      assert n == 0;
    } else if !IsDigit(a) {
      assert WhiteRun(s) == 0;
      assert body == s;
      assert n == 0;
    } else {
      assert WhiteRun(s) == 0;
      assert body == s;
      assert DigitRun(s, false) == 1 + DigitRun([b], false);
      assert n == 1;
      assert tail == [b];
      assert w == 0;
      assert tail[w..][0] != '\0';
    }
    assert n == 0 || !AllNul(tail[w..]);
    assert Scan(s, true, false).None?;
  }

  /** A decimal digit is neither white space nor a sign. */
  lemma DigitNotWhite(c: char)
    requires IsDigit(c)
    ensures !IsWhite(c) && c != '-' && c != '+' && IsNumeralDigit(c, false)
  {
  }

  lemma Pow16Grows(j: nat, k: nat)
    ensures j <= k ==> Pow16(j) <= Pow16(k)
  {
  }

  lemma Pow10Grows(j: nat, k: nat)
    ensures j <= k ==> Pow10(j) <= Pow10(k)
  {
  }

  lemma Pow16Eight()
    ensures Pow16(8) == TwoTo32
  {
    assert Pow16(4) == 0x1_0000;
  }

  /** A single decimal digit is written as one character. */
  lemma DigitSize(d: int)
    requires 0 <= d <= 9
    ensures DecimalString(d) == [DigitChar(d)]
  {
  }

  /** The two characters `"D2"` writes for 0..99. */
  lemma D2Shape(n: int)
    requires 0 <= n <= 99
    ensures FormatD2(n) == if n < 10 then ['0', DigitChar(n)] else [DigitChar(n / 10), DigitChar(n % 10)]
  {
    if n < 10 {
      assert Digits(n) == [DigitChar(n)];
      assert PadLeft([DigitChar(n)], 2, '0') == PadLeft(['0', DigitChar(n)], 2, '0');
    } else {
      assert Digits(n / 10) == [DigitChar(n / 10)];
      assert Digits(n) == [DigitChar(n / 10), DigitChar(n % 10)];
    }
  }

  /** `"D2"` writes 0..99 as exactly two digits. */
  lemma D2Size(n: int)
    requires 0 <= n <= 99
    ensures |FormatD2(n)| == 2
  {
    D2Shape(n);
  }

  /** `"D2"` writes 0..99 as two decimal digits. */
  lemma D2Digits(n: int)
    requires 0 <= n <= 99
    ensures |FormatD2(n)| == 2 && IsDigit(FormatD2(n)[0]) && IsDigit(FormatD2(n)[1])
  {
    D2Shape(n);
  }

  /** A single decimal digit reads back as itself. */
  lemma ParseDigit(d: int)
    requires 0 <= d <= 9
    ensures DecimalString(d) == [DigitChar(d)]
    ensures ParseInt32(DecimalString(d)) == Ok(d as int32)
  {
    DigitSize(d);
    ParseOne(DigitChar(d));
  }

  /** The value `Convert.ToInt32` gives for text it scans as unsigned digits. */
  lemma ParseScanned(s: string, m: Numeral)
    requires Scan(s, true, false) == Some(m) && !m.negative
    requires DecimalValue(m.digits) < 0x8000_0000
    ensures ParseInt32(s) == Ok(DecimalValue(m.digits) as int32)
  {
  }

  /** `"D2"` writes 0..99 as exactly two digits, which read back as the number. */
  lemma ParseD2(n: int)
    requires 0 <= n <= 99
    ensures |FormatD2(n)| == 2
    ensures forall k :: 0 <= k < 2 ==> IsDigit(FormatD2(n)[k])
    ensures ParseInt32(FormatD2(n)) == Ok(n as int32)
  {
    var s := FormatD2(n);
    D2Shape(n);
    ParseTwoDigits(s[0], s[1]);
    assert s == [s[0], s[1]];
  }

  /** Nibbles are lower-case hexadecimal digits. */
  lemma {:induction false} NibblesHex(u: nat, k: nat)
    ensures forall j :: 0 <= j < k ==> HexValue(Nibbles(u, k)[j]) >= 0
    ensures forall j :: 0 <= j < k ==> '0' <= Nibbles(u, k)[j] <= '9' || 'a' <= Nibbles(u, k)[j] <= 'f'
  {
    if k > 0 {
      NibblesHex(u / 16, k - 1);
      assert forall j :: 0 <= j < k - 1 ==> Nibbles(u, k)[j] == Nibbles(u / 16, k - 1)[j];
    }
  }

  /** Reading back `k` nibbles gives the number modulo 16^k. */
  lemma {:induction false} NibblesValue(u: nat, k: nat)
    ensures forall j :: 0 <= j < k ==> HexValue(Nibbles(u, k)[j]) >= 0
    ensures HexNumber(Nibbles(u, k)) == u % Pow16(k)
  {
    NibblesHex(u, k);
    if k > 0 {
      var front := Nibbles(u / 16, k - 1);
      NibblesValue(u / 16, k - 1);
      var s := Nibbles(u, k);
      assert s[..k - 1] == front;
      assert HexNumber(s) == (u / 16 % Pow16(k - 1)) * 16 + u % 16;
      ModShift(u, Pow16(k - 1));
    }
  }

  /** `(u / 16 % m) * 16 + u % 16 == u % (16 * m)` */
  lemma ModShift(u: nat, m: nat)
    requires m >= 1
    ensures (u / 16 % m) * 16 + u % 16 == u % (16 * m)
  {
    var q, r := u / 16, u % 16;
    var a, b := q / m, q % m;
    assert u == 16 * m * a + (16 * b + r) by {
      assert u == 16 * q + r;
      assert q == m * a + b;
    }
    assert 0 <= 16 * b + r < 16 * m;
    ModUnique(u, 16 * m, a, 16 * b + r);
  }

  lemma ModUnique(u: int, m: int, a: int, r: int)
    requires m >= 1 && 0 <= r < m && u == m * a + r
    ensures u % m == r
  {
    var d := a - u / m;
    assert m * d == u % m - r;
    MulSmall(m, d);
  }

  lemma ModSmall(u: int, m: int)
    requires 0 <= u < m
    ensures u % m == u
  {
  }

  lemma MulSmall(m: int, d: int)
    requires m >= 1 && -m < m * d < m
    ensures d == 0
  {
  }

  /** `"x8"` of an `int` parses back as that `int`. */
  lemma ParseX8(n: int32)
    ensures forall j :: 0 <= j < 8 ==> HexValue(FormatX8(n)[j]) >= 0
    ensures ParseHexInt32(FormatX8(n)) == Ok(n)
  {
    var u := if n < 0 then n as int + TwoTo32 else n as int;
    var x := FormatX8(n);
    NibblesValue(u, 8);
    NibblesHex(u, 8);
    Pow16Eight();
    ModSmall(u, TwoTo32);
    ScanPlain([], x, [], false, true);
    assert [] + x + [] == x;
    ParseHexScanned(x, Numeral(false, x), u);
  }

  /** The value `int.Parse(s, NumberStyles.HexNumber)` gives for text whose digits are
    * below 2^32. */
  lemma ParseHexScanned(s: string, m: Numeral, u: nat)
    requires Scan(s, false, true) == Some(m)
    requires u < TwoTo32 && HexNumber(m.digits) == u
    ensures ParseHexInt32(s) == Ok(if u >= 0x8000_0000 then (u - TwoTo32) as int32 else u as int32)
  {
  }
}
