/** `TokenAlgorithm`: a token is the keyed-hash digest of an input, written in lower-case
  * hexadecimal, with a salt, a caller's data, a timestamp and the positions of each of them
  * written over fixed places of the digest, the whole then passed through a backpack
  * encoder. `GetSalt` decodes a token and reads those fields back. */
module TokenAlgorithms {
  import opened Wrappers
  import Bits
  import opened Formats
  import opened BidirectionalDictionaries
  import opened BackpackEncoders

  const TimestampLength: int := 8

  /** The characters a generated salt is drawn from. */
  const RandomSeeds: string := "0123456789abcdef"

  newtype byte = x: int | 0 <= x < 256

  datatype HashName = MD5 | SHA1 | SHA256 | SHA384 | SHA512

  /** The size of each algorithm's digest, in bytes. */
  function DigestSize(h: HashName): nat
  {
    match h
    case MD5 => 16
    case SHA1 => 20
    case SHA256 => 32
    case SHA384 => 48
    case SHA512 => 64
  }

  /** `TokenHashSettings`: where each field of the token goes. */
  datatype Settings = Settings(
    hashAlgorithm: HashName,
    version: int,
    versionLength: int, versionPosStart: int, versionPosEnd: int,
    saltLength: int, saltPosStart: int, saltPosEnd: int,
    dataMaxLength: int, dataPosStart: int, dataPosEnd: int)

  const MD5Settings: Settings := Settings(MD5, 1, 7, 3, 12, 4, 13, 17, 12, 18, 31)
  const SHA1Settings: Settings := Settings(SHA1, 2, 7, 3, 12, 4, 13, 18, 20, 19, 39)
  const SHA256Settings: Settings := Settings(SHA256, 3, 7, 3, 12, 8, 13, 24, 32, 25, 61)
  const SHA384Settings: Settings := Settings(SHA384, 3, 7, 3, 12, 8, 13, 25, 64, 26, 95)
  const SHA512Settings: Settings := Settings(SHA512, 4, 7, 3, 12, 8, 13, 25, 96, 26, 126)

  /** `TokenSalt`: the fields a token carries besides its digest. */
  datatype TokenSalt = TokenSalt(
    salt: string,
    data: string,
    timestamp: int32,
    versionPosition: int,
    saltPosition: int,
    dataPosition: int,
    dataLength: int)

  /** `t` holds `v` at position `p`. */
  ghost predicate Holds(t: string, p: int, v: string)
  {
    0 <= p && p + |v| <= |t| && t[p..p + |v|] == v
  }

  /** `string.Remove(start, count)` */
  function Remove(s: string, start: int, count: int): (r: Result<string>)
    ensures r.Err? <==> start < 0 || count < 0 || start + count > |s|
    ensures r.Err? ==> r.error == ArgumentOutOfRange
    ensures r.Ok? ==> |r.value| == |s| - count
    ensures r.Ok? ==> r.value[..start] == s[..start] && r.value[start..] == s[start + count..]
  {
    if start < 0 || count < 0 || start + count > |s| then Err(ArgumentOutOfRange)
    else Ok(s[..start] + s[start + count..])
  }

  /** `string.Insert(start, value)` */
  function Insert(s: string, start: int, value: string): (r: Result<string>)
    ensures r.Err? <==> start < 0 || start > |s|
    ensures r.Err? ==> r.error == ArgumentOutOfRange
    ensures r.Ok? ==> |r.value| == |s| + |value|
    ensures r.Ok? ==> r.value[..start] == s[..start] && r.value[start + |value|..] == s[start..]
    ensures r.Ok? ==> r.value[start..start + |value|] == value
  {
    if start < 0 || start > |s| then Err(ArgumentOutOfRange)
    else Ok(s[..start] + value + s[start..])
  }

  /** `_Replace`: removes as many characters as `value` has at `position` and inserts
    * `value` there. It throws unless that range lies inside `input`; otherwise it
    * overwrites the range and keeps the length and every other character. */
  function Replace(input: string, position: int, value: string): (r: Result<string>)
    ensures r.Err? <==> position < 0 || position + |value| > |input|
    ensures r.Err? ==> r.error == ArgumentOutOfRange
    ensures r.Ok? ==> |r.value| == |input| && Holds(r.value, position, value)
    ensures r.Ok? ==> r.value[..position] == input[..position]
    ensures r.Ok? ==> r.value[position + |value|..] == input[position + |value|..]
  {
    match Remove(input, position, |value|)
    case Err(e) => Err(e)
    case Ok(removed) => Insert(removed, position, value)
  }

  /** The digest as `BitConverter.ToString` writes it, with the dashes removed and the
    * letters lowered: two lower-case hexadecimal digits per byte. */
  function DigestHex(buffer: seq<byte>): (r: string)
    ensures |r| == 2 * |buffer|
    ensures forall k :: 0 <= k < |r| ==> HexRank(r[k]) >= 0
  {
    if |buffer| == 0 then []
    else
      NibblesHex(buffer[|buffer| - 1] as int, 2);
      DigestHex(buffer[..|buffer| - 1]) + Nibbles(buffer[|buffer| - 1] as int, 2)
  }

  /** `s` is hexadecimal digits that read as `b`. */
  ghost predicate ReadsAs(s: string, b: int)
  {
    (forall j :: 0 <= j < |s| ==> HexValue(s[j]) >= 0) && HexNumber(s) == b
  }

  /** Each byte of the digest reads back from its two digits. */
  lemma {:induction false} DigestHexBytes(buffer: seq<byte>)
    ensures forall k :: 0 <= k < |buffer| ==> ReadsAs(DigestHex(buffer)[2 * k..2 * k + 2], buffer[k] as int)
  {
    if |buffer| > 0 {
      var n := |buffer| - 1;
      var front, last := DigestHex(buffer[..n]), Nibbles(buffer[n] as int, 2);
      DigestHexBytes(buffer[..n]);
      assert DigestHex(buffer) == front + last;
      forall k | 0 <= k < |buffer|
        ensures ReadsAs((front + last)[2 * k..2 * k + 2], buffer[k] as int)
      {
        if k < n {
          assert buffer[..n][k] == buffer[k];
          SliceOfFront(front, last, 2 * k, 2 * k + 2);
        } else {
          SliceOfFront(front, last, 2 * k, 2 * k);
          assert (front + last)[2 * k..2 * k + 2] == last;
          ByteDigits(buffer[k] as int);
        }
      }
    }
  }

  lemma SliceOfFront(a: string, b: string, i: int, j: int)
    requires 0 <= i <= j <= |a|
    ensures (a + b)[i..j] == a[i..j]
  {
  }

  /** Two nibbles read back as the byte they came from. */
  lemma ByteDigits(u: int)
    requires 0 <= u < 256
    ensures ReadsAs(Nibbles(u, 2), u)
  {
    NibblesValue(u, 2);
    assert Pow16(2) == 256;
  }

  /** `_SetVersion`: writes the settings' version at `position`. */
  function SetVersion(settings: Settings, token: string, position: int): (r: Result<string>)
    ensures r.Ok? ==> Holds(r.value, position, DecimalString(settings.version))
  {
    Replace(token, position, DecimalString(settings.version))
  }

  /** The first six writes of `_AddSalt`: the version position at index 2, the version at
    * the version position, the salt position after it, the salt, then the data length and
    * the data position after the salt position. */
  function Header(settings: Settings, token: string, salt: TokenSalt): (r: Result<string>)
    ensures r.Ok? ==> |r.value| == |token|
  {
    match Replace(token, 2, DecimalString(salt.versionPosition))
    case Err(e) => Err(e)
    case Ok(t1) =>
      match SetVersion(settings, t1, salt.versionPosition)
      case Err(e) => Err(e)
      case Ok(t2) =>
        match Replace(t2, salt.versionPosition + 1, FormatD2(salt.saltPosition))
        case Err(e) => Err(e)
        case Ok(t3) =>
          match Replace(t3, salt.saltPosition, salt.salt)
          case Err(e) => Err(e)
          case Ok(t4) =>
            match Replace(t4, salt.versionPosition + 5, FormatD2(salt.dataLength))
            case Err(e) => Err(e)
            case Ok(t5) => Replace(t5, salt.versionPosition + 3, FormatD2(salt.dataPosition))
  }

  /** The data, unless it is empty; data that leaves no room for the timestamp throws. */
  function WithData(settings: Settings, token: string, salt: TokenSalt): (r: Result<string>)
    ensures r.Err? <==>
      && 0 < |salt.data|
      && (|salt.data| > settings.dataMaxLength - TimestampLength ||
          salt.dataPosition < 0 || salt.dataPosition + |salt.data| > |token|)
    ensures r.Ok? ==> |r.value| == |token|
    ensures r.Ok? && 0 < |salt.data| ==> Holds(r.value, salt.dataPosition, salt.data)
  {
    if |salt.data| == 0 then Ok(token)
    else if |salt.data| > settings.dataMaxLength - TimestampLength then Err(ArgumentOutOfRange)
    else Replace(token, salt.dataPosition, salt.data)
  }

  /** `_AddSalt` up to the encoder: the header, the data, and the timestamp at the end of the
    * data area. */
  function Salted(settings: Settings, token: string, salt: TokenSalt): (r: Result<string>)
    ensures r.Ok? ==> |r.value| == |token|
  {
    match Header(settings, token, salt)
    case Err(e) => Err(e)
    case Ok(t6) =>
      match WithData(settings, t6, salt)
      case Err(e) => Err(e)
      case Ok(t7) =>
        Replace(t7, salt.dataPosition + settings.dataMaxLength - TimestampLength, FormatX8(salt.timestamp))
  }

  /** The token `Encrypt` returns for a digest in hexadecimal: the salted digest, encoded
    * through the table. */
  function SaltedToken(settings: Settings, table: map<char, char>, digest: string, salt: TokenSalt)
    : Result<string>
  {
    match Salted(settings, digest, salt)
    case Err(e) => Err(e)
    case Ok(t) => EncodeSpec(table, t)
  }

  /** `s[i]`, which throws outside the string. */
  function At(s: string, i: int): (r: Result<char>)
    ensures r.Ok? <==> 0 <= i < |s|
    ensures r.Ok? ==> r.value == s[i]
    ensures r.Err? ==> r.error == IndexOutOfRange
  {
    if 0 <= i < |s| then Ok(s[i]) else Err(IndexOutOfRange)
  }

  /** `string.Substring(start, length)` */
  function Substring(s: string, start: int, length: int): (r: Result<string>)
    ensures r.Ok? <==> 0 <= start && 0 <= length && start + length <= |s|
    ensures r.Ok? ==> |r.value| == length && Holds(s, start, r.value)
    ensures r.Err? ==> r.error == ArgumentOutOfRange
  {
    if 0 <= start && 0 <= length && start + length <= |s| then Ok(s[start..start + length])
    else Err(ArgumentOutOfRange)
  }

  /** `Convert.ToInt32(decoded[i].ToString())`: one character reads as a number only when
    * it is a decimal digit (`ReadDigitParses` shows this is what the parser does). */
  function ReadDigit(decoded: string, i: int): (r: Result<int>)
    ensures r.Ok? ==> 0 <= r.value <= 9
    ensures r.Err? ==> r.error in {IndexOutOfRange, BadFormat}
    ensures 0 <= i < |decoded| ==>
      (r.Ok? <==> IsDigit(decoded[i])) && (r.Ok? ==> r.value == DigitValue(decoded[i]))
  {
    var c :- At(decoded, i);
    if IsDigit(c) then Ok(DigitValue(c)) else Err(BadFormat)
  }

  /** `ReadDigit` is `Convert.ToInt32` of the one-character string. */
  lemma ReadDigitParses(decoded: string, i: int)
    requires 0 <= i < |decoded|
    ensures ReadDigit(decoded, i) == match ParseInt32([decoded[i]])
      case Ok(n) => Ok(n as int)
      case Err(e) => Err(e)
  {
    ParseOne(decoded[i]);
  }

  /** What `Convert.ToInt32` makes of two characters, as `Formats.ParseTwo` tabulates it. */
  function ParsedPair(a: char, b: char): Result<int>
  {
    if IsDigit(a) && IsDigit(b) then Ok(10 * DigitValue(a) + DigitValue(b))
    else if (IsWhite(a) || a == '+') && IsDigit(b) then Ok(DigitValue(b))
    else if a == '-' && IsDigit(b) then Ok(-DigitValue(b))
    else if IsDigit(a) && (IsWhite(b) || b == '\0') then Ok(DigitValue(a))
    else Err(BadFormat)
  }

  /** `Convert.ToInt32($"{decoded[i]}{decoded[i + 1]}")`. Besides two digits, .NET accepts
    * a digit after white space or a sign, and a digit before white space or a NUL, so a
    * pair reads as -9..99, and a negative one starts with the minus sign
    * (`ReadPairParses` shows this is what the parser does). */
  function ReadPair(decoded: string, i: int): (r: Result<int>)
    ensures r.Ok? ==> -9 <= r.value <= 99
    ensures r.Ok? && r.value < 0 ==> 0 <= i < |decoded| && decoded[i] == '-'
    ensures r.Err? ==> r.error in {IndexOutOfRange, BadFormat}
    ensures 0 <= i && i + 1 < |decoded| && IsDigit(decoded[i]) && IsDigit(decoded[i + 1]) ==>
      r == Ok(10 * DigitValue(decoded[i]) + DigitValue(decoded[i + 1]))
  {
    var a :- At(decoded, i);
    var b :- At(decoded, i + 1);
    ParsedPair(a, b)
  }

  /** `ReadPair` is `Convert.ToInt32` of the two-character string. */
  lemma ReadPairParses(decoded: string, i: int)
    requires 0 <= i && i + 1 < |decoded|
    ensures ReadPair(decoded, i) == match ParseInt32([decoded[i], decoded[i + 1]])
      case Ok(n) => Ok(n as int)
      case Err(e) => Err(e)
  {
    ParseTwo(decoded[i], decoded[i + 1]);
  }

  /** The four numbers `GetSalt` reads first. */
  datatype Positions = Positions(versionPosition: int, saltPosition: int, dataPosition: int, dataLength: int)

  /** The version position at index 2, then the salt position, the data position and the
    * data length after it, two digits each. */
  function ReadPositions(decoded: string): (r: Result<Positions>)
    ensures r.Ok? ==> 0 <= r.value.versionPosition <= 9
    ensures r.Ok? ==> -9 <= r.value.saltPosition <= 99 && -9 <= r.value.dataPosition <= 99
    ensures r.Ok? ==> -9 <= r.value.dataLength <= 99
    ensures r.Err? ==> r.error in {IndexOutOfRange, BadFormat}
  {
    var versionPosition :- ReadDigit(decoded, 2);
    var saltPosition :- ReadPair(decoded, versionPosition + 1);
    var dataPosition :- ReadPair(decoded, versionPosition + 3);
    var dataLength :- ReadPair(decoded, versionPosition + 5);
    Ok(Positions(versionPosition, saltPosition, dataPosition, dataLength))
  }

  /** `GetSalt` after decoding: reads the positions, then the salt, the data and the
    * timestamp. */
  function ParseSalt(settings: Settings, decoded: string): (r: Result<TokenSalt>)
    ensures r.Ok? ==> |r.value.salt| == settings.saltLength && |r.value.data| == r.value.dataLength
    ensures r.Ok? ==> Holds(decoded, r.value.saltPosition, r.value.salt)
    ensures r.Ok? ==> Holds(decoded, r.value.dataPosition, r.value.data)
    ensures r.Ok? ==> 0 <= r.value.versionPosition <= 9
    ensures r.Ok? ==> 0 <= r.value.saltPosition <= 99 && 0 <= r.value.dataPosition <= 99
    ensures r.Err? ==> r.error in {IndexOutOfRange, BadFormat, ArgumentOutOfRange}
  {
    match ReadPositions(decoded)
    case Err(e) => Err(e)
    case Ok(p) =>
      match Substring(decoded, p.saltPosition, settings.saltLength)
      case Err(e) => Err(e)
      case Ok(salt) =>
        match Substring(decoded, p.dataPosition, p.dataLength)
        case Err(e) => Err(e)
        case Ok(data) =>
          match Substring(decoded, p.dataPosition + settings.dataMaxLength - TimestampLength, TimestampLength)
          case Err(e) => Err(e)
          case Ok(stamp) =>
            match ParseHexInt32(stamp)
            case Err(e) => Err(e)
            case Ok(timestamp) =>
              Ok(TokenSalt(salt, data, timestamp, p.versionPosition, p.saltPosition, p.dataPosition, p.dataLength))
  }

  /** What `GetSalt` returns for a token, given the table's inverse direction. */
  function SaltOfToken(settings: Settings, backward: map<char, char>, token: string): Result<TokenSalt>
  {
    ParseSalt(settings, DecodeSpec(backward, token))
  }

  /** The settings keep the fields apart: index 2 lies before the version area, the version
    * area before the salt area, the salt area before the data area, and the data area inside
    * the digest; the version area holds seven characters (version, salt position, data
    * position, data length) and every position drawn fits in the digits written for it. */
  ghost predicate Laid(s: Settings)
  {
    && s.versionLength == 7
    && 2 < s.versionPosStart && s.versionPosEnd <= s.saltPosStart
    && 0 <= s.saltLength && s.saltPosEnd <= s.dataPosStart
    && TimestampLength <= s.dataMaxLength && s.dataPosEnd <= 2 * DigestSize(s.hashAlgorithm)
    && 0 <= s.version <= 9
    && s.versionPosEnd - s.versionLength <= 9
    && s.saltPosEnd - s.saltLength <= 99
    && s.dataPosEnd - s.dataMaxLength <= 99
    && s.dataMaxLength - TimestampLength <= 99
  }

  /** `Random.Next(low, high)`: a value in `[low, high)`, or `low` when the range is empty. */
  ghost predicate Drawn(low: int, high: int, r: int)
  {
    low <= high && if low < high then low <= r < high else r == low
  }

  /** The salt's positions are ones `Encrypt` draws and its data leaves room for the
    * timestamp. */
  ghost predicate Fits(s: Settings, salt: TokenSalt)
  {
    && Drawn(s.versionPosStart, s.versionPosEnd - s.versionLength, salt.versionPosition)
    && Drawn(s.saltPosStart, s.saltPosEnd - s.saltLength, salt.saltPosition)
    && Drawn(s.dataPosStart, s.dataPosEnd - s.dataMaxLength, salt.dataPosition)
    && |salt.salt| == s.saltLength
    && salt.dataLength == |salt.data| <= s.dataMaxLength - TimestampLength
  }

  /** The five preset settings keep their fields apart. */
  lemma PresetsLaid()
    ensures Laid(MD5Settings) && Laid(SHA1Settings) && Laid(SHA256Settings)
    ensures Laid(SHA384Settings) && Laid(SHA512Settings)
  {
  }

  /** A write away from a field leaves the field in place. */
  lemma Keep(t: string, p: int, v: string, q: int, w: string)
    requires Holds(t, q, w) && Replace(t, p, v).Ok?
    requires q + |w| <= p || p + |v| <= q
    ensures Holds(Replace(t, p, v).value, q, w)
  {
    var r := Replace(t, p, v).value;
    if q + |w| <= p {
      assert r[q..q + |w|] == r[..p][q..q + |w|];
      assert t[q..q + |w|] == t[..p][q..q + |w|];
    } else {
      var e := p + |v|;
      assert r[q..q + |w|] == r[e..][q - e..q - e + |w|];
      assert t[q..q + |w|] == t[e..][q - e..q - e + |w|];
    }
  }

  /** The positions `Laid` settings and a `Fits` salt give for a token of length `n`. */
  ghost predicate Placed(s: Settings, salt: TokenSalt, n: int)
  {
    && 3 <= salt.versionPosition <= 9 && 0 <= s.version <= 9
    && salt.versionPosition + 7 <= salt.saltPosition <= 99
    && salt.saltPosition + |salt.salt| <= salt.dataPosition <= 99
    && |salt.salt| == s.saltLength
    && 0 <= salt.dataLength == |salt.data| && salt.dataLength + TimestampLength <= s.dataMaxLength
    && salt.dataLength <= 99
    && salt.dataPosition + s.dataMaxLength <= n
  }

  lemma LaidPlaced(s: Settings, salt: TokenSalt, n: int)
    requires Laid(s) && Fits(s, salt) && n >= s.dataPosEnd
    ensures Placed(s, salt, n)
  {
  }

  /** The fields the header writes, which stay in place to the end. */
  ghost predicate HeaderHeld(t: string, salt: TokenSalt)
  {
    && Holds(t, 2, DecimalString(salt.versionPosition))
    && Holds(t, salt.versionPosition + 1, FormatD2(salt.saltPosition))
    && Holds(t, salt.versionPosition + 3, FormatD2(salt.dataPosition))
    && Holds(t, salt.versionPosition + 5, FormatD2(salt.dataLength))
    && Holds(t, salt.saltPosition, salt.salt)
  }

  lemma HeaderHolds(s: Settings, token: string, salt: TokenSalt)
    requires Placed(s, salt, |token|)
    ensures Header(s, token, salt).Ok? && HeaderHeld(Header(s, token, salt).value, salt)
  {
    var vp, sp, dp, dl := salt.versionPosition, salt.saltPosition, salt.dataPosition, salt.dataLength;
    DigitSize(vp);
    DigitSize(s.version);
    D2Size(sp);
    D2Size(dp);
    D2Size(dl);
    var t1 := Replace(token, 2, DecimalString(vp)).value;
    var t2 := SetVersion(s, t1, vp).value;
    var t3 := Replace(t2, vp + 1, FormatD2(sp)).value;
    assert Holds(t3, 2, DecimalString(vp)) by {
      Keep(t1, vp, DecimalString(s.version), 2, DecimalString(vp));
      Keep(t2, vp + 1, FormatD2(sp), 2, DecimalString(vp));
    }
    var t4 := Replace(t3, sp, salt.salt).value;
    assert Holds(t4, 2, DecimalString(vp)) && Holds(t4, vp + 1, FormatD2(sp)) by {
      Keep(t3, sp, salt.salt, 2, DecimalString(vp));
      Keep(t3, sp, salt.salt, vp + 1, FormatD2(sp));
    }
    var t5 := Replace(t4, vp + 5, FormatD2(dl)).value;
    assert Holds(t5, 2, DecimalString(vp)) && Holds(t5, vp + 1, FormatD2(sp)) && Holds(t5, sp, salt.salt) by {
      Keep(t4, vp + 5, FormatD2(dl), 2, DecimalString(vp));
      Keep(t4, vp + 5, FormatD2(dl), vp + 1, FormatD2(sp));
      Keep(t4, vp + 5, FormatD2(dl), sp, salt.salt);
    }
    var t6 := Replace(t5, vp + 3, FormatD2(dp)).value;
    assert HeaderHeld(t6, salt) by {
      Keep(t5, vp + 3, FormatD2(dp), 2, DecimalString(vp));
      Keep(t5, vp + 3, FormatD2(dp), vp + 1, FormatD2(sp));
      Keep(t5, vp + 3, FormatD2(dp), sp, salt.salt);
      Keep(t5, vp + 3, FormatD2(dp), vp + 5, FormatD2(dl));
    }
    HeaderSteps(s, token, salt, t3, t5);
  }

  /** A write past the header's fields keeps all of them. */
  lemma KeepHeader(t: string, p: int, v: string, salt: TokenSalt)
    requires HeaderHeld(t, salt) && Replace(t, p, v).Ok?
    requires salt.versionPosition + 7 <= salt.saltPosition && salt.saltPosition + |salt.salt| <= p
    requires 3 <= salt.versionPosition <= 9
    requires 0 <= salt.saltPosition <= 99 && 0 <= salt.dataPosition <= 99 && 0 <= salt.dataLength <= 99
    ensures HeaderHeld(Replace(t, p, v).value, salt)
  {
    var vp := salt.versionPosition;
    DigitSize(vp);
    D2Size(salt.saltPosition);
    D2Size(salt.dataPosition);
    D2Size(salt.dataLength);
    Keep(t, p, v, 2, DecimalString(vp));
    Keep(t, p, v, vp + 1, FormatD2(salt.saltPosition));
    Keep(t, p, v, vp + 3, FormatD2(salt.dataPosition));
    Keep(t, p, v, vp + 5, FormatD2(salt.dataLength));
    Keep(t, p, v, salt.saltPosition, salt.salt);
  }

  lemma SaltedSteps(s: Settings, token: string, salt: TokenSalt, t6: string, t7: string, q: int)
    requires Header(s, token, salt) == Ok(t6) && WithData(s, t6, salt) == Ok(t7)
    requires q == salt.dataPosition + s.dataMaxLength - TimestampLength
    ensures Salted(s, token, salt) == Replace(t7, q, FormatX8(salt.timestamp))
  {
  }

  /** Writing the data keeps the header and places the data. */
  lemma DataHolds(s: Settings, t6: string, salt: TokenSalt)
    requires Placed(s, salt, |t6|) && HeaderHeld(t6, salt)
    ensures WithData(s, t6, salt).Ok?
    ensures HeaderHeld(WithData(s, t6, salt).value, salt)
    ensures Holds(WithData(s, t6, salt).value, salt.dataPosition, salt.data)
  {
    if |salt.data| != 0 {
      KeepHeader(t6, salt.dataPosition, salt.data, salt);
    } else {
      assert Holds(t6, salt.dataPosition, salt.data);
    }
  }

  /** Writing the timestamp at `q`, past the data, keeps the header and the data. */
  lemma StampHolds(t7: string, salt: TokenSalt, q: int, stamp: string)
    requires HeaderHeld(t7, salt) && Holds(t7, salt.dataPosition, salt.data)
    requires 3 <= salt.versionPosition <= 9 && salt.versionPosition + 7 <= salt.saltPosition
    requires 0 <= salt.saltPosition <= 99 && 0 <= salt.dataPosition <= 99 && 0 <= salt.dataLength <= 99
    requires salt.saltPosition + |salt.salt| <= salt.dataPosition
    requires salt.dataPosition + |salt.data| <= q && q + |stamp| <= |t7|
    ensures Replace(t7, q, stamp).Ok?
    ensures var t8 := Replace(t7, q, stamp).value;
      HeaderHeld(t8, salt) && Holds(t8, salt.dataPosition, salt.data) && Holds(t8, q, stamp)
  {
    KeepHeader(t7, q, stamp, salt);
    Keep(t7, q, stamp, salt.dataPosition, salt.data);
  }

  /** Every field `_AddSalt` writes stays in place to the end; the timestamp is at `q`. */
  lemma SaltedHolds(s: Settings, token: string, salt: TokenSalt, q: int)
    requires Placed(s, salt, |token|)
    requires q == salt.dataPosition + s.dataMaxLength - TimestampLength
    ensures Salted(s, token, salt).Ok?
    ensures var t := Salted(s, token, salt).value;
      && HeaderHeld(t, salt)
      && Holds(t, salt.dataPosition, salt.data)
      && Holds(t, q, FormatX8(salt.timestamp))
  {
    HeaderHolds(s, token, salt);
    var t6 := Header(s, token, salt).value;
    DataHolds(s, t6, salt);
    var t7 := WithData(s, t6, salt).value;
    StampHolds(t7, salt, q, FormatX8(salt.timestamp));
    SaltedSteps(s, token, salt, t6, t7, q);
  }

  lemma ReadDigitHeld(t: string, d: int)
    requires 0 <= d <= 9 && Holds(t, 2, DecimalString(d))
    ensures ReadDigit(t, 2) == Ok(d)
  {
    ParseDigit(d);
    assert [t[2]] == DecimalString(d);
  }

  lemma ReadPairHeld(t: string, i: int, n: int)
    requires 0 <= n <= 99 && Holds(t, i, FormatD2(n))
    ensures ReadPair(t, i) == Ok(n)
  {
    D2Shape(n);
    var s := FormatD2(n);
    assert t[i] == s[0] && t[i + 1] == s[1];
  }

  lemma SubstringHeld(t: string, p: int, n: int, v: string)
    requires |v| == n && Holds(t, p, v)
    ensures Substring(t, p, n) == Ok(v)
  {
    assert t[p..p + |v|] == v;
  }

  /** Fields written in place read back as the salt they came from; `stamp` is the text of
    * the timestamp, written at `q`. */
  lemma ParseHeld(s: Settings, t: string, salt: TokenSalt, q: int, stamp: string)
    requires HeaderHeld(t, salt) && 0 <= salt.versionPosition <= 9
    requires 0 <= salt.saltPosition <= 99 && 0 <= salt.dataPosition <= 99 && 0 <= salt.dataLength <= 99
    requires |salt.salt| == s.saltLength && |salt.data| == salt.dataLength
    requires Holds(t, salt.dataPosition, salt.data)
    requires q == salt.dataPosition + s.dataMaxLength - TimestampLength
    requires |stamp| == TimestampLength && Holds(t, q, stamp)
    requires ParseHexInt32(stamp) == Ok(salt.timestamp)
    ensures ParseSalt(s, t) == Ok(salt)
  {
    SubstringHeld(t, q, TimestampLength, stamp);
    SubstringHeld(t, salt.saltPosition, s.saltLength, salt.salt);
    SubstringHeld(t, salt.dataPosition, salt.dataLength, salt.data);
    PositionsHeld(t, salt);
    ParseSteps(s, t, Positions(salt.versionPosition, salt.saltPosition, salt.dataPosition, salt.dataLength),
      salt.salt, salt.data, q, stamp, salt.timestamp);
  }

  lemma ParseSteps(s: Settings, t: string, p: Positions, salt: string, data: string, q: int, stamp: string,
                   timestamp: int32)
    requires ReadPositions(t) == Ok(p)
    requires Substring(t, p.saltPosition, s.saltLength) == Ok(salt)
    requires Substring(t, p.dataPosition, p.dataLength) == Ok(data)
    requires q == p.dataPosition + s.dataMaxLength - TimestampLength
    requires Substring(t, q, TimestampLength) == Ok(stamp)
    requires ParseHexInt32(stamp) == Ok(timestamp)
    ensures ParseSalt(s, t) ==
      Ok(TokenSalt(salt, data, timestamp, p.versionPosition, p.saltPosition, p.dataPosition, p.dataLength))
  {
  }

  lemma PositionsHeld(t: string, salt: TokenSalt)
    requires HeaderHeld(t, salt) && 0 <= salt.versionPosition <= 9
    requires 0 <= salt.saltPosition <= 99 && 0 <= salt.dataPosition <= 99 && 0 <= salt.dataLength <= 99
    ensures ReadPositions(t) ==
      Ok(Positions(salt.versionPosition, salt.saltPosition, salt.dataPosition, salt.dataLength))
  {
    ReadDigitHeld(t, salt.versionPosition);
    PairsHeld(t, salt);
    PositionsSteps(t, salt.versionPosition, salt.saltPosition, salt.dataPosition, salt.dataLength);
  }

  lemma PairsHeld(t: string, salt: TokenSalt)
    requires HeaderHeld(t, salt) && 0 <= salt.versionPosition <= 9
    requires 0 <= salt.saltPosition <= 99 && 0 <= salt.dataPosition <= 99 && 0 <= salt.dataLength <= 99
    ensures ReadPair(t, salt.versionPosition + 1) == Ok(salt.saltPosition)
    ensures ReadPair(t, salt.versionPosition + 3) == Ok(salt.dataPosition)
    ensures ReadPair(t, salt.versionPosition + 5) == Ok(salt.dataLength)
  {
    ReadPairHeld(t, salt.versionPosition + 1, salt.saltPosition);
    ReadPairHeld(t, salt.versionPosition + 3, salt.dataPosition);
    ReadPairHeld(t, salt.versionPosition + 5, salt.dataLength);
  }

  lemma PositionsSteps(t: string, vp: int, sp: int, dp: int, dl: int)
    requires ReadDigit(t, 2) == Ok(vp)
    requires ReadPair(t, vp + 1) == Ok(sp)
    requires ReadPair(t, vp + 3) == Ok(dp)
    requires ReadPair(t, vp + 5) == Ok(dl)
    ensures ReadPositions(t) == Ok(Positions(vp, sp, dp, dl))
  {
  }

  /** `GetSalt` inverts `_AddSalt` before encoding: every field comes back. */
  lemma SaltRoundTrip(s: Settings, token: string, salt: TokenSalt)
    requires Laid(s) && Fits(s, salt) && |token| >= s.dataPosEnd
    ensures Salted(s, token, salt).Ok?
    ensures ParseSalt(s, Salted(s, token, salt).value) == Ok(salt)
  {
    var q := salt.dataPosition + s.dataMaxLength - TimestampLength;
    LaidPlaced(s, salt, |token|);
    SaltedHolds(s, token, salt, q);
    ParseX8(salt.timestamp);
    ParseHeld(s, Salted(s, token, salt).value, salt, q, FormatX8(salt.timestamp));
  }

  /** Data that does not leave room for the timestamp is refused. */
  lemma DataTooLong(s: Settings, token: string, salt: TokenSalt)
    requires Laid(s) && |token| >= s.dataPosEnd
    requires |salt.data| > s.dataMaxLength - TimestampLength
    requires Fits(s, salt.(data := salt.data[..s.dataMaxLength - TimestampLength]))
    ensures Salted(s, token, salt) == Err(ArgumentOutOfRange)
  {
    var fitting := salt.(data := salt.data[..s.dataMaxLength - TimestampLength]);
    LaidPlaced(s, fitting, |token|);
    HeaderHolds(s, token, fitting);
    HeaderIgnoresData(s, token, salt, fitting.data);
  }

  /** Every character a field is written with is in `keys`, and so is every character of
    * the salted token. */
  ghost predicate Over(t: string, keys: set<char>)
  {
    forall c :: c in t ==> c in keys
  }

  ghost predicate CoversHex(keys: set<char>)
  {
    forall c :: HexRank(c) >= 0 ==> c in keys
  }

  lemma ReplaceOver(t: string, p: int, v: string, keys: set<char>)
    requires Over(t, keys) && Over(v, keys) && Replace(t, p, v).Ok?
    ensures Over(Replace(t, p, v).value, keys)
  {
    var r := Replace(t, p, v).value;
    forall c | c in r
      ensures c in keys
    {
      var k :| 0 <= k < |r| && r[k] == c;
      if k < p {
        assert r[k] == r[..p][k];
      } else if k < p + |v| {
        assert r[k] == r[p..p + |v|][k - p];
      } else {
        assert r[k] == r[p + |v|..][k - p - |v|];
      }
    }
  }

  /** Decimal digits are hexadecimal digits. */
  lemma DigitsOver(v: string, keys: set<char>)
    requires CoversHex(keys) && forall k :: 0 <= k < |v| ==> IsDigit(v[k])
    ensures Over(v, keys)
  {
    forall c | c in v
      ensures c in keys
    {
      var k :| 0 <= k < |v| && v[k] == c;
      assert HexRank(v[k]) >= 0;
    }
  }

  lemma HeaderSteps(s: Settings, token: string, salt: TokenSalt, t3: string, t5: string)
    requires var vp := salt.versionPosition;
      && Replace(token, 2, DecimalString(vp)).Ok?
      && SetVersion(s, Replace(token, 2, DecimalString(vp)).value, vp).Ok?
      && Replace(SetVersion(s, Replace(token, 2, DecimalString(vp)).value, vp).value, vp + 1,
                 FormatD2(salt.saltPosition)) == Ok(t3)
      && Replace(t3, salt.saltPosition, salt.salt).Ok?
      && Replace(Replace(t3, salt.saltPosition, salt.salt).value, vp + 5, FormatD2(salt.dataLength)) == Ok(t5)
    ensures Header(s, token, salt) == Replace(t5, salt.versionPosition + 3, FormatD2(salt.dataPosition))
  {
  }

  lemma D2Over(n: int, keys: set<char>)
    requires 0 <= n <= 99 && CoversHex(keys)
    ensures |FormatD2(n)| == 2 && Over(FormatD2(n), keys)
  {
    D2Digits(n);
    DigitsOver(FormatD2(n), keys);
  }

  /** The header does not depend on the data. */
  lemma HeaderIgnoresData(s: Settings, token: string, salt: TokenSalt, data: string)
    ensures Header(s, token, salt) == Header(s, token, salt.(data := data))
  {
  }

  /** The first three writes of the header keep every character in `keys`. */
  lemma FrontOver(s: Settings, token: string, salt: TokenSalt, keys: set<char>) returns (t3: string)
    requires Placed(s, salt, |token|)
    requires CoversHex(keys) && Over(token, keys)
    ensures var vp := salt.versionPosition;
      && Replace(token, 2, DecimalString(vp)).Ok?
      && SetVersion(s, Replace(token, 2, DecimalString(vp)).value, vp).Ok?
      && Replace(SetVersion(s, Replace(token, 2, DecimalString(vp)).value, vp).value, vp + 1,
                 FormatD2(salt.saltPosition)) == Ok(t3)
    ensures |t3| == |token| && Over(t3, keys)
  {
    var vp, sp := salt.versionPosition, salt.saltPosition;
    assert Over(DecimalString(vp), keys) && |DecimalString(vp)| == 1 by {
      DigitSize(vp);
      DigitsOver(DecimalString(vp), keys);
    }
    assert Over(DecimalString(s.version), keys) && |DecimalString(s.version)| == 1 by {
      DigitSize(s.version);
      DigitsOver(DecimalString(s.version), keys);
    }
    D2Over(sp, keys);
    var t1 := Replace(token, 2, DecimalString(vp)).value;
    ReplaceOver(token, 2, DecimalString(vp), keys);
    var t2 := Replace(t1, vp, DecimalString(s.version)).value;
    ReplaceOver(t1, vp, DecimalString(s.version), keys);
    t3 := Replace(t2, vp + 1, FormatD2(sp)).value;
    ReplaceOver(t2, vp + 1, FormatD2(sp), keys);
  }

  /** The last three writes of the header keep every character in `keys`. */
  lemma BackOver(s: Settings, t3: string, salt: TokenSalt, keys: set<char>) returns (t5: string)
    requires Placed(s, salt, |t3|)
    requires CoversHex(keys) && Over(t3, keys) && Over(salt.salt, keys)
    ensures Replace(t3, salt.saltPosition, salt.salt).Ok?
    ensures Replace(Replace(t3, salt.saltPosition, salt.salt).value, salt.versionPosition + 5,
                    FormatD2(salt.dataLength)) == Ok(t5)
    ensures Replace(t5, salt.versionPosition + 3, FormatD2(salt.dataPosition)).Ok?
    ensures Over(Replace(t5, salt.versionPosition + 3, FormatD2(salt.dataPosition)).value, keys)
  {
    var vp, dp, dl := salt.versionPosition, salt.dataPosition, salt.dataLength;
    D2Over(dp, keys);
    D2Over(dl, keys);
    var t4 := Replace(t3, salt.saltPosition, salt.salt).value;
    ReplaceOver(t3, salt.saltPosition, salt.salt, keys);
    t5 := Replace(t4, vp + 5, FormatD2(dl)).value;
    ReplaceOver(t4, vp + 5, FormatD2(dl), keys);
    ReplaceOver(t5, vp + 3, FormatD2(dp), keys);
  }

  lemma HeaderOver(s: Settings, token: string, salt: TokenSalt, keys: set<char>)
    requires Placed(s, salt, |token|)
    requires CoversHex(keys) && Over(token, keys) && Over(salt.salt, keys)
    ensures Header(s, token, salt).Ok? && Over(Header(s, token, salt).value, keys)
  {
    var t3 := FrontOver(s, token, salt, keys);
    var t5 := BackOver(s, t3, salt, keys);
    HeaderSteps(s, token, salt, t3, t5);
  }

  /** The timestamp is written in hexadecimal digits. */
  lemma StampOver(timestamp: int32, keys: set<char>)
    requires CoversHex(keys)
    ensures Over(FormatX8(timestamp), keys)
  {
    var x8 := FormatX8(timestamp);
    NibblesHex(if timestamp < 0 then timestamp as int + Bits.TwoTo32 else timestamp as int, 8);
    forall c | c in x8
      ensures c in keys
    {
      var k :| 0 <= k < |x8| && x8[k] == c;
      assert HexRank(x8[k]) >= 0;
    }
  }

  lemma SaltedOver(s: Settings, token: string, salt: TokenSalt, keys: set<char>)
    requires Placed(s, salt, |token|)
    requires CoversHex(keys) && Over(token, keys) && Over(salt.salt, keys) && Over(salt.data, keys)
    ensures Salted(s, token, salt).Ok? && Over(Salted(s, token, salt).value, keys)
  {
    var q := salt.dataPosition + s.dataMaxLength - TimestampLength;
    HeaderOver(s, token, salt, keys);
    var t6 := Header(s, token, salt).value;
    var t7 := WithData(s, t6, salt).value;
    if |salt.data| != 0 {
      ReplaceOver(t6, salt.dataPosition, salt.data, keys);
    }
    StampOver(salt.timestamp, keys);
    ReplaceOver(t7, q, FormatX8(salt.timestamp), keys);
    SaltedSteps(s, token, salt, t6, t7, q);
  }

  /** `GetSalt` inverts `Encrypt` through a one-to-one table that covers the hexadecimal
    * digits and every character of the salt and the data. */
  lemma TokenRoundTrip(s: Settings, forward: map<char, char>, backward: map<char, char>,
                       digest: string, salt: TokenSalt)
    requires Laid(s) && Fits(s, salt) && |digest| >= s.dataPosEnd
    requires Bijection(forward, backward) && CoversHex(forward.Keys)
    requires Over(digest, forward.Keys) && Over(salt.salt, forward.Keys) && Over(salt.data, forward.Keys)
    ensures SaltedToken(s, forward, digest, salt).Ok?
    ensures SaltOfToken(s, backward, SaltedToken(s, forward, digest, salt).value) == Ok(salt)
  {
    TokenDecodes(s, forward, backward, digest, salt);
    SaltRoundTrip(s, digest, salt);
  }

  /** Decoding the token gives back the salted digest. */
  lemma TokenDecodes(s: Settings, forward: map<char, char>, backward: map<char, char>,
                     digest: string, salt: TokenSalt)
    requires Laid(s) && Fits(s, salt) && |digest| >= s.dataPosEnd
    requires Bijection(forward, backward) && CoversHex(forward.Keys)
    requires Over(digest, forward.Keys) && Over(salt.salt, forward.Keys) && Over(salt.data, forward.Keys)
    ensures Salted(s, digest, salt).Ok? && SaltedToken(s, forward, digest, salt).Ok?
    ensures DecodeSpec(backward, SaltedToken(s, forward, digest, salt).value) == Salted(s, digest, salt).value
  {
    LaidPlaced(s, salt, |digest|);
    SaltedOver(s, digest, salt, forward.Keys);
    var t := Salted(s, digest, salt).value;
    assert forall k :: 0 <= k < |t| ==> t[k] in forward;
    DecodeEncode(forward, backward, t);
  }

  /** As the token test checks: re-encrypting the same input and key with the salt read back
    * from a token gives the token again, and the data comes back unchanged. */
  lemma EncryptAgain(s: Settings, forward: map<char, char>, backward: map<char, char>,
                     hmac: (string, string) -> seq<byte>, input: string, key: string, salt: TokenSalt)
    requires Laid(s) && Fits(s, salt) && |hmac(key + salt.salt, input)| == DigestSize(s.hashAlgorithm)
    requires Bijection(forward, backward) && CoversHex(forward.Keys)
    requires Over(salt.salt, forward.Keys) && Over(salt.data, forward.Keys)
    ensures var x := SaltedToken(s, forward, DigestHex(hmac(key + salt.salt, input)), salt);
      && x.Ok?
      && var y := SaltOfToken(s, backward, x.value);
      && y.Ok? && y.value.data == salt.data
      && SaltedToken(s, forward, DigestHex(hmac(key + y.value.salt, input)), y.value) == x
  {
    TokenRoundTrip(s, forward, backward, DigestHex(hmac(key + salt.salt, input)), salt);
  }

  /** The digits a generated salt is made of, in `Random.Next(16)` order. */
  lemma RandomSeedsAreHex()
    ensures |RandomSeeds| == 16
    ensures forall i :: 0 <= i < 16 ==> HexRank(RandomSeeds[i]) == i
  {
  }

  /** The table the encoders share after the default seeds are loaded covers the
    * hexadecimal digits. */
  lemma DefaultTableCoversHex()
    ensures CoversHex(ToMap(DefaultPackageSeeds).Keys)
  {
    forall c | HexRank(c) >= 0
      ensures c in ToMap(DefaultPackageSeeds).Keys
    {
      var i := HexRank(c);
      SeedRanks(i);
      assert DefaultPackageSeeds[i].0 == c;
    }
  }

  class TokenAlgorithm {
    const backpack: BackpackEncoder
    const settings: Settings
    /** The keyed hash of `settings.hashAlgorithm`, from the key's and the input's bytes
      * to the digest. */
    const hmac: (string, string) -> seq<byte>

    constructor(settings: Settings, backpack: BackpackEncoder, hmac: (string, string) -> seq<byte>)
      ensures this.settings == settings && this.backpack == backpack && this.hmac == hmac
    {
      this.settings := settings;
      this.backpack := backpack;
      this.hmac := hmac;
    }

    /** `_GenerateSalt`: appends `RandomSeeds[index]` until the salt is long enough, each
      * index the next of `draws`, the values `Random.Next(16)` returns. */
    method GenerateSalt(draws: seq<int>) returns (salt: string)
      requires forall k :: 0 <= k < |draws| ==> 0 <= draws[k] < 16
      requires |draws| >= settings.saltLength
      ensures |salt| == if settings.saltLength < 0 then 0 else settings.saltLength
      ensures forall k :: 0 <= k < |salt| ==> salt[k] == RandomSeeds[draws[k]] && HexRank(salt[k]) >= 0
    {
      RandomSeedsAreHex();
      salt := "";
      while |salt| < settings.saltLength
        invariant |salt| <= if settings.saltLength < 0 then 0 else settings.saltLength
        invariant forall k :: 0 <= k < |salt| ==> salt[k] == RandomSeeds[draws[k]] && HexRank(salt[k]) >= 0
        decreases settings.saltLength - |salt|
      {
        var index := draws[|salt|];
        salt := salt + [RandomSeeds[index]];
      }
    }

    /** `Encrypt(input, key, salt)`: the digest of `input` keyed with the key followed by the
      * salt, salted and encoded. */
    method Encrypt(input: string, key: string, salt: TokenSalt) returns (r: Result<string>)
      requires backpack.backpackage.Valid()
      ensures r == SaltedToken(settings, backpack.backpackage.keysToValues.items,
                               DigestHex(hmac(key + salt.salt, input)), salt)
    {
      var buffer := hmac(key + salt.salt, input);
      var token := DigestHex(buffer);
      r := AddSalt(token, salt);
    }

    /** `_AddSalt`: writes the fields over the token one after the other, then encodes. */
    method AddSalt(token: string, salt: TokenSalt) returns (r: Result<string>)
      requires backpack.backpackage.Valid()
      ensures r == SaltedToken(settings, backpack.backpackage.keysToValues.items, token, salt)
    {
      var header := Header(settings, token, salt);
      if header.Err? {
        return Err(header.error);
      }
      var withData := WithData(settings, header.value, salt);
      if withData.Err? {
        return Err(withData.error);
      }
      var stamped := Replace(withData.value, salt.dataPosition + settings.dataMaxLength - TimestampLength,
                             FormatX8(salt.timestamp));
      if stamped.Err? {
        return Err(stamped.error);
      }
      r := backpack.Encode(stamped.value);
    }

    /** `GetSalt`: decodes the token and reads the fields back. */
    method GetSalt(token: string) returns (r: Result<TokenSalt>)
      requires backpack.backpackage.Valid()
      ensures r == SaltOfToken(settings, backpack.backpackage.valuesToKeys.items, token)
    {
      var decoded := backpack.Decode(token);
      r := ParseSalt(settings, decoded);
    }

    /** `Encrypt(input, key, data)`: draws the three positions (`Random.Next` throws on an
      * empty range), takes the timestamp, generates a salt and builds the `TokenSalt`,
      * whose constructor refuses `null` data. `positions` and `draws` stand for the random
      * values, `timestamp` for the clock. */
    method EncryptData(input: string, key: string, data: Option<string>,
                       positions: (int, int, int), draws: seq<int>, timestamp: int32)
      returns (r: Result<string>)
      requires backpack.backpackage.Valid()
      requires Drawn(settings.versionPosStart, settings.versionPosEnd - settings.versionLength, positions.0)
      requires Drawn(settings.saltPosStart, settings.saltPosEnd - settings.saltLength, positions.1)
      requires Drawn(settings.dataPosStart, settings.dataPosEnd - settings.dataMaxLength, positions.2)
      requires forall k :: 0 <= k < |draws| ==> 0 <= draws[k] < 16
      requires |draws| >= settings.saltLength
      ensures !RangesOpen(settings) ==> r == Err(ArgumentOutOfRange)
      ensures RangesOpen(settings) && data.None? ==> r == Err(ArgumentNull)
      ensures RangesOpen(settings) && data.Some? ==> exists salt: string ::
        && |salt| == (if settings.saltLength < 0 then 0 else settings.saltLength)
        && (forall k :: 0 <= k < |salt| ==> salt[k] == RandomSeeds[draws[k]])
        && r == SaltedToken(settings, backpack.backpackage.keysToValues.items,
                            DigestHex(hmac(key + salt, input)),
                            TokenSalt(salt, data.value, timestamp, positions.0, positions.1, positions.2, |data.value|))
    {
      if !RangesOpen(settings) {
        return Err(ArgumentOutOfRange);
      }
      var salt := GenerateSalt(draws);
      if data.None? {
        return Err(ArgumentNull);
      }
      var tokenSalt := TokenSalt(salt, data.value, timestamp, positions.0, positions.1, positions.2, |data.value|);
      r := Encrypt(input, key, tokenSalt);
    }
  }

  /** `Random.Next(low, high)` throws when `high < low`. */
  predicate RangesOpen(s: Settings)
  {
    && s.versionPosStart <= s.versionPosEnd - s.versionLength
    && s.saltPosStart <= s.saltPosEnd - s.saltLength
    && s.dataPosStart <= s.dataPosEnd - s.dataMaxLength
  }

  /** `new TokenAlgorithm(settings, backpack)`: `null` settings mean SHA-256, a `null`
    * encoder throws. */
  method Create(settings: Option<Settings>, backpack: Option<BackpackEncoder>,
                hmac: (string, string) -> seq<byte>)
    returns (r: Result<TokenAlgorithm>)
    ensures r.Err? <==> backpack.None?
    ensures r.Err? ==> r.error == ArgumentNull
    ensures r.Ok? ==> r.value.settings == settings.UnwrapOr(SHA256Settings)
    ensures r.Ok? ==> r.value.backpack == backpack.value && r.value.hmac == hmac
  {
    if backpack.None? {
      return Err(ArgumentNull);
    }
    var algorithm := new TokenAlgorithm(settings.UnwrapOr(SHA256Settings), backpack.value, hmac);
    return Ok(algorithm);
  }

  /** `new TokenAlgorithm(settings)`: a new default encoder over the shared table, which
    * loads the default seeds into it. */
  method CreateDefault(settings: Option<Settings>, shared: BidirectionalDictionary<char, char>,
                       hmac: (string, string) -> seq<byte>)
    returns (algorithm: TokenAlgorithm)
    requires shared.Valid()
    modifies shared.keysToValues, shared.valuesToKeys
    ensures shared.Valid() && algorithm.backpack.backpackage == shared
    ensures algorithm.settings == settings.UnwrapOr(SHA256Settings)
    ensures shared.keysToValues.items == ToMap(DefaultPackageSeeds)
    ensures CoversHex(shared.keysToValues.items.Keys)
  {
    SeedsAreDistinct();
    var encoder := BackpackEncoders.Create(shared, None);
    DefaultTableCoversHex();
    algorithm := new TokenAlgorithm(settings.UnwrapOr(SHA256Settings), encoder.value, hmac);
  }
}
