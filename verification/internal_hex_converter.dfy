/** The hex codec of the runtime (`InternalHexConverter`): parsing a hex string
    into signed bytes, printing signed bytes as hex, and rendering a 32-bit
    integer as trimmed lower-case hex. */
module InternalHexConverter {

  /** A Kotlin `Byte`: a signed 8-bit integer. */
  newtype Byte = x: int | -128 <= x < 128

  /** A Kotlin `Int`: a signed 32-bit integer. */
  newtype Int32 = x: int | -0x8000_0000 <= x < 0x8000_0000

  /** The `IllegalArgumentException`s raised by `require` in `parseHexBinary`. */
  datatype Error =
    | OddLength                            // "HexBinary string must be even length"
    | InvalidHexChars(high: char, low: char) // "Invalid hex chars: <high><low>"

  datatype Result<T> = Ok(value: T) | Err(error: Error)

  const HexCode: string := "0123456789ABCDEF"

  /** The digits `toHexString` can produce. */
  predicate IsLowerHexDigit(ch: char) {
    '0' <= ch <= '9' || 'a' <= ch <= 'f'
  }

  /** The characters `hexToInt` accepts: `0-9`, `A-F` and `a-f`. */
  predicate IsHexDigit(ch: char) {
    '0' <= ch <= '9' || 'A' <= ch <= 'F' || 'a' <= ch <= 'f'
  }

  /** `toByte()`: keeps the low 8 bits of `x`, read in two's complement. */
  function ToByte(x: int): (b: Byte)
    ensures (b as int - x) % 256 == 0
  {
    var u := x % 256;
    if u < 128 then u as Byte else (u - 256) as Byte
  }

  /** The value 0..255 that the bits of `b` denote when read unsigned. */
  function Unsigned(b: Byte): (u: nat)
    ensures u < 256 && (u - b as int) % 256 == 0
  {
    (b as int) % 256
  }

  /** `hexToInt`: the value of a hex digit of either case, or -1. */
  function HexToInt(ch: char): (r: int)
    ensures -1 <= r < 16
    ensures r == -1 <==> !IsHexDigit(ch)
  {
    if '0' <= ch <= '9' then ch as int - '0' as int
    else if 'A' <= ch <= 'F' then ch as int - 'A' as int + 10
    else if 'a' <= ch <= 'f' then ch as int - 'a' as int + 10
    else -1
  }

  /** ASCII upper case to lower case, every other character unchanged. */
  function ToLowerChar(ch: char): char {
    if 'A' <= ch <= 'Z' then (ch as int - 'A' as int + 'a' as int) as char else ch
  }

  /** ASCII lower case to upper case, every other character unchanged. */
  function ToUpperChar(ch: char): char {
    if 'a' <= ch <= 'z' then (ch as int - 'a' as int + 'A' as int) as char else ch
  }

  lemma HexToIntCaseInsensitive(ch: char)
    ensures HexToInt(ToLowerChar(ch)) == HexToInt(ch)
    ensures HexToInt(ToUpperChar(ch)) == HexToInt(ch)
  {
  }

  /** `String.toLowerCase()` on the characters that reach it. */
  function ToLowerCase(s: string): (t: string)
    ensures |t| == |s|
    ensures forall i :: 0 <= i < |s| ==> t[i] == ToLowerChar(s[i])
  {
    seq(|s|, i requires 0 <= i < |s| => ToLowerChar(s[i]))
  }

  // ---------------------------------------------------------------------
  // parseHexBinary
  // ---------------------------------------------------------------------

  /** Prefixes the bytes `p` to a successful decoding; errors pass through. */
  function Prepend(p: seq<Byte>, r: Result<seq<Byte>>): Result<seq<Byte>> {
    match r
    case Ok(rest) => Ok(p + rest)
    case Err(e) => Err(e)
  }

  lemma PrependPrepend(p: seq<Byte>, q: seq<Byte>, r: Result<seq<Byte>>)
    ensures Prepend(p, Prepend(q, r)) == Prepend(p + q, r)
  {
    if r.Ok? {
      assert p + (q + r.value) == (p + q) + r.value;
    }
  }

  /** Decodes an even-length string pair by pair, stopping at the first
      pair that holds a non-hex character. */
  function DecodePairs(s: string): (r: Result<seq<Byte>>)
    requires |s| % 2 == 0
    ensures r != Err(OddLength)
    ensures r.Ok? ==> |r.value| == |s| / 2
    decreases |s|
  {
    if |s| == 0 then Ok([])
    else
      var h := HexToInt(s[0]);
      var l := HexToInt(s[1]);
      if h == -1 || l == -1 then Err(InvalidHexChars(s[0], s[1]))
      else Prepend([ToByte(h * 16 + l)], DecodePairs(s[2..]))
  }

  /** One step of the scan: a valid pair at offset `i` contributes its byte. */
  lemma DecodePairsStep(s: string, i: nat)
    requires |s| % 2 == 0 && i % 2 == 0 && i < |s|
    requires HexToInt(s[i]) != -1 && HexToInt(s[i + 1]) != -1
    ensures DecodePairs(s[i..])
      == Prepend([ToByte(HexToInt(s[i]) * 16 + HexToInt(s[i + 1]))], DecodePairs(s[i + 2..]))
  {
    assert s[i..][0] == s[i] && s[i..][1] == s[i + 1] && s[i..][2..] == s[i + 2..];
  }

  /** The scan's invariant survives a valid pair. */
  lemma DecodeScanStep(s: string, i: nat, done: seq<Byte>)
    requires |s| % 2 == 0 && i % 2 == 0 && i < |s|
    requires HexToInt(s[i]) != -1 && HexToInt(s[i + 1]) != -1
    requires DecodeHex(s) == Prepend(done, DecodePairs(s[i..]))
    ensures DecodeHex(s)
      == Prepend(done + [ToByte(HexToInt(s[i]) * 16 + HexToInt(s[i + 1]))], DecodePairs(s[i + 2..]))
  {
    DecodePairsStep(s, i);
    PrependPrepend(done, [ToByte(HexToInt(s[i]) * 16 + HexToInt(s[i + 1]))], DecodePairs(s[i + 2..]));
  }

  lemma DecodeScanStart(s: string)
    requires |s| % 2 == 0
    ensures DecodeHex(s) == Prepend([], DecodePairs(s[0..]))
  {
    assert s[0..] == s;
    assert DecodePairs(s).Ok? ==> [] + DecodePairs(s).value == DecodePairs(s).value;
  }

  /** The scan stops at an invalid pair, reporting its characters. */
  lemma DecodeScanBadPair(s: string, i: nat, done: seq<Byte>)
    requires |s| % 2 == 0 && i % 2 == 0 && i < |s|
    requires HexToInt(s[i]) == -1 || HexToInt(s[i + 1]) == -1
    requires DecodeHex(s) == Prepend(done, DecodePairs(s[i..]))
    ensures DecodeHex(s) == Err(InvalidHexChars(s[i], s[i + 1]))
  {
    assert s[i..][0] == s[i] && s[i..][1] == s[i + 1];
  }

  /** At the end of the scan everything decoded is the result. */
  lemma DecodeScanEnd(s: string, done: seq<Byte>)
    requires |s| % 2 == 0
    requires DecodeHex(s) == Prepend(done, DecodePairs(s[|s|..]))
    ensures DecodeHex(s) == Ok(done)
  {
    assert s[|s|..] == [] && done + [] == done;
  }

  /** What `parseHexBinary` returns or raises for `s`. */
  function DecodeHex(s: string): Result<seq<Byte>> {
    if |s| % 2 != 0 then Err(OddLength) else DecodePairs(s)
  }

  /** `parseHexBinary`: fills a byte array two characters at a time. */
  method ParseHexBinary(s: string) returns (r: Result<seq<Byte>>)
    ensures r == DecodeHex(s)
  {
    var len := |s|;
    if len % 2 != 0 {
      return Err(OddLength);
    }
    var bytes := new Byte[len / 2];
    var i := 0;
    DecodeScanStart(s);
    assert bytes[..i / 2] == [];
    while i < len
      invariant 0 <= i <= len && i % 2 == 0
      invariant DecodeHex(s) == Prepend(bytes[..i / 2], DecodePairs(s[i..]))
    {
      var h := HexToInt(s[i]);
      var l := HexToInt(s[i + 1]);
      if h == -1 || l == -1 {
        DecodeScanBadPair(s, i, bytes[..i / 2]);
        return Err(InvalidHexChars(s[i], s[i + 1]));
      }
      ghost var done := bytes[..i / 2];
      DecodeScanStep(s, i, done);
      bytes[i / 2] := ToByte(h * 16 + l);
      assert bytes[..(i + 2) / 2] == done + [ToByte(h * 16 + l)];
      i := i + 2;
    }
    assert bytes[..i / 2] == bytes[..];
    DecodeScanEnd(s, bytes[..]);
    return Ok(bytes[..]);
  }

  /** An odd-length string is rejected before any character is looked at. */
  lemma DecodeHexOddLength(s: string)
    ensures DecodeHex(s) == Err(OddLength) <==> |s| % 2 == 1
  {
  }

  /** Parsing succeeds exactly on even-length strings of hex digits. */
  lemma {:induction false} DecodeHexSucceeds(s: string)
    ensures DecodeHex(s).Ok? <==> |s| % 2 == 0 && forall i :: 0 <= i < |s| ==> IsHexDigit(s[i])
  {
    if |s| % 2 == 0 && |s| > 0 {
      DecodeHexSucceeds(s[2..]);
      if IsHexDigit(s[0]) && IsHexDigit(s[1]) {
        assert DecodeHex(s).Ok? <==> DecodeHex(s[2..]).Ok?;
        forall i | 0 <= i < |s| && (forall j :: 0 <= j < |s| - 2 ==> IsHexDigit(s[2..][j]))
          ensures IsHexDigit(s[i])
        {
          if i >= 2 { assert s[i] == s[2..][i - 2]; }
        }
      }
    }
  }

  /** The pair at even offset `i` of `s` is `a b`, one of the two is not a
      hex digit, and every character before it is. */
  predicate FirstBadPairAt(s: string, i: int, a: char, b: char) {
    0 <= i < |s| - 1 && i % 2 == 0 && s[i] == a && s[i + 1] == b
    && (!IsHexDigit(a) || !IsHexDigit(b))
    && forall j :: 0 <= j < i ==> IsHexDigit(s[j])
  }

  /** A rejected pair is reported with its two characters: the first pair in
      which a character is not a hex digit. */
  lemma {:induction false} DecodeHexReportsFirstBadPair(s: string, a: char, b: char)
    requires DecodeHex(s) == Err(InvalidHexChars(a, b))
    ensures exists i :: FirstBadPairAt(s, i, a, b)
  {
    if IsHexDigit(s[0]) && IsHexDigit(s[1]) {
      var t := s[2..];
      assert DecodeHex(t) == Err(InvalidHexChars(a, b));
      DecodeHexReportsFirstBadPair(t, a, b);
      var k :| FirstBadPairAt(t, k, a, b);
      assert s[k + 2] == a && s[k + 3] == b;
      forall j | 0 <= j < k + 2 ensures IsHexDigit(s[j]) {
        if j >= 2 { assert s[j] == t[j - 2]; }
      }
      assert FirstBadPairAt(s, k + 2, a, b);
    } else {
      assert FirstBadPairAt(s, 0, a, b);
    }
  }

  /** Every parsed byte is the two-digit value of its pair, truncated to a
      signed byte. */
  lemma {:induction false} DecodeHexBytes(s: string)
    requires DecodeHex(s).Ok?
    ensures |DecodeHex(s).value| == |s| / 2
    ensures forall k :: 0 <= k < |s| / 2 ==>
      DecodeHex(s).value[k] == ToByte(16 * HexToInt(s[2 * k]) + HexToInt(s[2 * k + 1]))
  {
    if |s| > 0 {
      var t := s[2..];
      DecodeHexBytes(t);
      var v, w := DecodeHex(s).value, DecodeHex(t).value;
      assert v == [ToByte(HexToInt(s[0]) * 16 + HexToInt(s[1]))] + w;
      forall k | 1 <= k < |s| / 2
        ensures v[k] == ToByte(16 * HexToInt(s[2 * k]) + HexToInt(s[2 * k + 1]))
      {
        assert v[k] == w[k - 1];
        assert t[2 * (k - 1)] == s[2 * k] && t[2 * (k - 1) + 1] == s[2 * k + 1];
      }
    }
  }

  // ---------------------------------------------------------------------
  // printHexBinary
  // ---------------------------------------------------------------------

  /** `b.toInt() shr 4 and 0xF`: the sign-extended value shifted right
      arithmetically (floor division) and masked to four bits. */
  function HighNibble(b: Byte): (d: nat)
    ensures d < 16
  {
    ((b as int) / 16) % 16
  }

  /** `b.toInt() and 0xF`. */
  function LowNibble(b: Byte): (d: nat)
    ensures d < 16
  {
    (b as int) % 16
  }

  /** The two nibbles are the unsigned value of the byte, and put back
      together they give the byte again. */
  lemma NibblesOfByte(b: Byte)
    ensures 16 * HighNibble(b) + LowNibble(b) == Unsigned(b)
    ensures ToByte(16 * HighNibble(b) + LowNibble(b)) == b
  {
    var x := b as int;
    var q, r := x / 16, x % 16;
    DivModUnique(x, 16, q, r);
    if x < 0 {
      DivModUnique(q, 16, -1, q + 16);
      DivModUnique(x, 256, -1, x + 256);
    } else {
      DivModUnique(q, 16, 0, q);
      DivModUnique(x, 256, 0, x);
    }
  }

  /** The hex digit for `d` in the requested case: `hexCode[d]`, folded to
      lower case when asked. */
  function Digit(d: nat, lowerCase: bool): (c: char)
    requires d < 16
    ensures c == if d < 10 then ('0' as int + d) as char
                 else if lowerCase then ('a' as int + d - 10) as char
                 else ('A' as int + d - 10) as char
  {
    if lowerCase then ToLowerChar(HexCode[d]) else HexCode[d]
  }

  /** `hexToInt` inverts `Digit` in both cases, and every hex digit is the
      `Digit` of its value in its own case. */
  lemma DigitValue(d: nat, lowerCase: bool)
    requires d < 16
    ensures IsHexDigit(Digit(d, lowerCase)) && HexToInt(Digit(d, lowerCase)) == d
  {
  }

  lemma HexToIntInverse(ch: char)
    requires IsHexDigit(ch)
    ensures Digit(HexToInt(ch), 'a' <= ch <= 'f') == ch
  {
  }

  /** What the `StringBuilder` holds after the loop of `printHexBinary`. */
  function UpperHex(data: seq<Byte>): string
    decreases |data|
  {
    if data == [] then []
    else
      var b := data[|data| - 1];
      UpperHex(data[..|data| - 1]) + [HexCode[HighNibble(b)], HexCode[LowNibble(b)]]
  }

  /** What `printHexBinary(data, lowerCase)` returns. */
  function EncodeHex(data: seq<Byte>, lowerCase: bool): string {
    if lowerCase then ToLowerCase(UpperHex(data)) else UpperHex(data)
  }

  /** `printHexBinary`: appends two digits per byte, then folds the case. */
  method PrintHexBinary(data: seq<Byte>, lowerCase: bool := false) returns (s: string)
    ensures s == EncodeHex(data, lowerCase)
  {
    var r: string := [];
    for i := 0 to |data|
      invariant r == UpperHex(data[..i])
    {
      var b := data[i];
      assert data[..i + 1][..i] == data[..i];
      r := r + [HexCode[HighNibble(b)], HexCode[LowNibble(b)]];
    }
    assert data[..|data|] == data;
    s := if lowerCase then ToLowerCase(r) else r;
  }

  lemma ToLowerCaseAppend(a: string, b: string)
    ensures ToLowerCase(a + b) == ToLowerCase(a) + ToLowerCase(b)
  {
  }

  /** Encoding one more byte appends its two digits. */
  lemma EncodeHexSnoc(data: seq<Byte>, b: Byte, lowerCase: bool)
    ensures EncodeHex(data + [b], lowerCase)
      == EncodeHex(data, lowerCase) + [Digit(HighNibble(b), lowerCase), Digit(LowNibble(b), lowerCase)]
  {
    assert (data + [b])[..|data|] == data;
    if lowerCase {
      ToLowerCaseAppend(UpperHex(data), [HexCode[HighNibble(b)], HexCode[LowNibble(b)]]);
    }
  }

  /** `printHexBinary` gives two characters per byte: the high nibble, then
      the low nibble, in the requested case. */
  lemma {:induction false} EncodeHexAt(data: seq<Byte>, lowerCase: bool)
    ensures |EncodeHex(data, lowerCase)| == 2 * |data|
    ensures forall k :: 0 <= k < |data| ==>
      EncodeHex(data, lowerCase)[2 * k] == Digit(HighNibble(data[k]), lowerCase) &&
      EncodeHex(data, lowerCase)[2 * k + 1] == Digit(LowNibble(data[k]), lowerCase)
    decreases |data|
  {
    if data != [] {
      var n := |data| - 1;
      var init := data[..n];
      EncodeHexAt(init, lowerCase);
      assert data == init + [data[n]];
      EncodeHexSnoc(init, data[n], lowerCase);
    }
  }

  /** Round trip: parsing what was printed gives back the bytes, in either case. */
  lemma RoundTrip(data: seq<Byte>, lowerCase: bool)
    ensures DecodeHex(EncodeHex(data, lowerCase)) == Ok(data)
  {
    var s := EncodeHex(data, lowerCase);
    EncodeHexAt(data, lowerCase);
    forall i | 0 <= i < |s| ensures IsHexDigit(s[i]) {
      var k := i / 2;
      assert i == 2 * k || i == 2 * k + 1;
      DigitValue(HighNibble(data[k]), lowerCase);
      DigitValue(LowNibble(data[k]), lowerCase);
    }
    DecodeHexSucceeds(s);
    DecodeHexBytes(s);
    var v := DecodeHex(s).value;
    assert |v| == |data|;
    forall k | 0 <= k < |data| ensures v[k] == data[k] {
      assert s[2 * k] == Digit(HighNibble(data[k]), lowerCase);
      assert s[2 * k + 1] == Digit(LowNibble(data[k]), lowerCase);
      DigitValue(HighNibble(data[k]), lowerCase);
      DigitValue(LowNibble(data[k]), lowerCase);
      assert v[k] == ToByte(16 * HexToInt(s[2 * k]) + HexToInt(s[2 * k + 1]));
      NibblesOfByte(data[k]);
    }
    assert v == data;
  }

  // ---------------------------------------------------------------------
  // toHexString
  // ---------------------------------------------------------------------

  function Pow2(k: nat): (p: nat)
    ensures p > 0
  {
    if k == 0 then 1 else 2 * Pow2(k - 1)
  }

  /** `n shr k` on a Kotlin `Int`: arithmetic shift right, i.e. floor
      division by 2^k. */
  function ShiftRight(n: Int32, k: nat): int
    requires k < 32
  {
    (n as int) / Pow2(k)
  }

  /** `String.trimStart(c)`: drops every leading `c`. */
  function TrimStart(s: string, c: char): (t: string)
    ensures |t| <= |s| && t == s[|s| - |t|..]
    ensures t != [] ==> t[0] != c
    ensures forall i :: 0 <= i < |s| - |t| ==> s[i] == c
  {
    if s != [] && s[0] == c then TrimStart(s[1..], c) else s
  }

  /** The four big-endian bytes that `toHexString` writes into its array. */
  function WordBytes(n: Int32): seq<Byte> {
    [ToByte(ShiftRight(n, 24)), ToByte(ShiftRight(n, 16)), ToByte(ShiftRight(n, 8)), ToByte(ShiftRight(n, 0))]
  }

  /** What `toHexString(n)` returns. */
  function HexString(n: Int32): string {
    var t := TrimStart(EncodeHex(WordBytes(n), true), '0');
    if |t| > 0 then t else "0"
  }

  /** `toHexString`: fills a four-byte array in a loop, prints it in lower
      case and trims the leading zeros; an all-zero result becomes "0". */
  method ToHexString(n: Int32) returns (s: string)
    ensures s == HexString(n)
  {
    var arr := new Byte[4];
    for i := 0 to 4
      invariant forall j :: 0 <= j < i ==> arr[j] == ToByte(ShiftRight(n, 24 - j * 8))
    {
      arr[i] := ToByte(ShiftRight(n, 24 - i * 8));
    }
    assert arr[..] == WordBytes(n);
    var printed := PrintHexBinary(arr[..], true);
    var trimmed := TrimStart(printed, '0');
    s := if |trimmed| > 0 then trimmed else "0";
  }

  /** The number a string of hex digits denotes, most significant first. */
  function HexValue(s: string): int
    decreases |s|
  {
    if s == [] then 0 else HexValue(s[..|s| - 1]) * 16 + HexToInt(s[|s| - 1])
  }

  /** The number a sequence of bytes denotes, unsigned and big-endian. */
  function BytesValue(bs: seq<Byte>): int
    decreases |bs|
  {
    if bs == [] then 0 else BytesValue(bs[..|bs| - 1]) * 256 + Unsigned(bs[|bs| - 1])
  }

  lemma {:induction false} HexValueDropZero(t: string)
    ensures HexValue(['0'] + t) == HexValue(t)
    decreases |t|
  {
    if t != [] {
      var n := |t| - 1;
      assert (['0'] + t)[..|t|] == ['0'] + t[..n];
      HexValueDropZero(t[..n]);
    }
  }

  /** Leading zeros do not change the value. */
  lemma {:induction false} HexValueTrimStart(s: string)
    ensures HexValue(TrimStart(s, '0')) == HexValue(s)
    decreases |s|
  {
    if s != [] && s[0] == '0' {
      HexValueTrimStart(s[1..]);
      assert s == ['0'] + s[1..];
      HexValueDropZero(s[1..]);
    }
  }

  /** The hex text of some bytes denotes their unsigned big-endian value. */
  lemma {:induction false} HexValueOfEncoding(bs: seq<Byte>, lowerCase: bool)
    ensures HexValue(EncodeHex(bs, lowerCase)) == BytesValue(bs)
    decreases |bs|
  {
    if bs != [] {
      var n := |bs| - 1;
      var b := bs[n];
      assert bs == bs[..n] + [b];
      EncodeHexSnoc(bs[..n], b, lowerCase);
      HexValueOfEncoding(bs[..n], lowerCase);
      var e := EncodeHex(bs[..n], lowerCase);
      var hi := Digit(HighNibble(b), lowerCase);
      var lo := Digit(LowNibble(b), lowerCase);
      assert (e + [hi, lo])[..|e| + 1] == e + [hi];
      assert (e + [hi])[..|e|] == e;
      NibblesOfByte(b);
    }
  }

  lemma MulAtLeast(d: int, k: int)
    requires d > 0 && k >= 1
    ensures d * k >= d
  {
    assert d * k == d * (k - 1) + d;
  }

  /** Euclidean division has one quotient and one remainder. */
  lemma DivModUnique(x: int, d: int, q: int, r: int)
    requires d > 0 && x == d * q + r && 0 <= r < d
    ensures x / d == q && x % d == r
  {
    var q0, r0 := x / d, x % d;
    assert x == d * q0 + r0;
    assert d * (q0 - q) == r - r0 by {
      assert d * (q0 - q) == d * q0 - d * q;
    }
    if q0 > q {
      MulAtLeast(d, q0 - q);
    } else if q0 < q {
      MulAtLeast(d, q - q0);
    }
  }

  /** Splitting off the low byte of `x`, modulo and divided by `m * 256`. */
  lemma SplitLowByte(x: int, m: int)
    requires m > 0
    ensures (x / 256) % m * 256 + x % 256 == x % (m * 256)
    ensures x / 256 / m == x / (m * 256)
  {
    var q, r := x / 256, x % 256;
    var p, t := q / m, q % m;
    assert x == (m * 256) * p + (t * 256 + r) by {
      assert q * 256 == (m * p + t) * 256 == (m * 256) * p + t * 256;
    }
    assert t * 256 + r < m * 256 by {
      assert t * 256 <= (m - 1) * 256;
    }
    DivModUnique(x, m * 256, p, t * 256 + r);
  }

  lemma UnsignedToByte(x: int)
    ensures Unsigned(ToByte(x)) == x % 256
  {
  }

  lemma BytesValueSnoc(bs: seq<Byte>, b: Byte)
    ensures BytesValue(bs + [b]) == BytesValue(bs) * 256 + Unsigned(b)
  {
    assert (bs + [b])[..|bs|] == bs;
  }

  lemma BytesValue4(b0: Byte, b1: Byte, b2: Byte, b3: Byte)
    ensures BytesValue([b0, b1, b2, b3])
      == ((Unsigned(b0) * 256 + Unsigned(b1)) * 256 + Unsigned(b2)) * 256 + Unsigned(b3)
  {
    assert [b0] == [] + [b0];
    assert [b0, b1, b2, b3] == [b0] + [b1] + [b2] + [b3];
    BytesValueSnoc([], b0);
    BytesValueSnoc([b0], b1);
    BytesValueSnoc([b0] + [b1], b2);
    BytesValueSnoc([b0] + [b1] + [b2], b3);
  }

  /** The base-256 digits of `x` modulo 2^32, most significant first. */
  lemma WordDigits(x: int)
    ensures ((x / 0x100_0000 % 256 * 256 + x / 0x1_0000 % 256) * 256 + x / 0x100 % 256) * 256 + x % 256
      == x % 0x1_0000_0000
  {
    var x1 := x / 0x100;
    var x2 := x1 / 0x100;
    SplitLowByte(x2, 0x100);
    SplitLowByte(x1, 0x100);
    SplitLowByte(x1, 0x1_0000);
    SplitLowByte(x, 0x100);
    SplitLowByte(x, 0x1_0000);
    SplitLowByte(x, 0x100_0000);
  }

  /** The four bytes of a word denote the word modulo 2^32. */
  lemma WordBytesValue(n: Int32)
    ensures BytesValue(WordBytes(n)) == (n as int) % 0x1_0000_0000
  {
    var x := n as int;
    assert Pow2(8) == 0x100 && Pow2(16) == 0x1_0000 && Pow2(24) == 0x100_0000;
    var b0, b1, b2, b3 := ToByte(x / 0x100_0000), ToByte(x / 0x1_0000), ToByte(x / 0x100), ToByte(x);
    assert WordBytes(n) == [b0, b1, b2, b3];
    BytesValue4(b0, b1, b2, b3);
    UnsignedToByte(x / 0x100_0000);
    UnsignedToByte(x / 0x1_0000);
    UnsignedToByte(x / 0x100);
    UnsignedToByte(x);
    WordDigits(x);
  }

  /** The printed word is eight lower-case digits. */
  lemma EncodedWordDigits(n: Int32)
    ensures |EncodeHex(WordBytes(n), true)| == 8
    ensures forall i :: 0 <= i < 8 ==> IsLowerHexDigit(EncodeHex(WordBytes(n), true)[i])
  {
    var w := WordBytes(n);
    var e := EncodeHex(w, true);
    EncodeHexAt(w, true);
    assert |w| == 4;
    forall i | 0 <= i < 8 ensures IsLowerHexDigit(e[i]) {
      var k := i / 2;
      if i == 2 * k {
        assert e[i] == Digit(HighNibble(w[k]), true);
      } else {
        assert e[i] == Digit(LowNibble(w[k]), true);
      }
    }
  }

  /** The printed word: eight lower-case digits denoting `n` modulo 2^32. */
  lemma EncodedWord(n: Int32)
    ensures |EncodeHex(WordBytes(n), true)| == 8
    ensures forall i :: 0 <= i < 8 ==> IsLowerHexDigit(EncodeHex(WordBytes(n), true)[i])
    ensures HexValue(EncodeHex(WordBytes(n), true)) == (n as int) % 0x1_0000_0000
  {
    EncodedWordDigits(n);
    HexValueOfEncoding(WordBytes(n), true);
    WordBytesValue(n);
  }

  /** Trimming a string made only of `c` leaves nothing. */
  lemma TrimStartAll(s: string, c: char)
    requires forall i :: 0 <= i < |s| ==> s[i] == c
    ensures TrimStart(s, c) == []
  {
  }

  /** Zero is the only 32-bit integer that is a multiple of 2^32. */
  lemma WordModZero(n: Int32)
    ensures (n as int) % 0x1_0000_0000 == 0 <==> n == 0
  {
    var x := n as int;
    if x < 0 {
      DivModUnique(x, 0x1_0000_0000, -1, x + 0x1_0000_0000);
    } else {
      DivModUnique(x, 0x1_0000_0000, 0, x);
    }
  }

  /** The printed zero word is all zeros, so trimming leaves nothing. */
  lemma ZeroWordTrimsAway()
    ensures TrimStart(EncodeHex(WordBytes(0), true), '0') == []
  {
    assert Pow2(8) == 0x100 && Pow2(16) == 0x1_0000 && Pow2(24) == 0x100_0000;
    var w: seq<Byte> := [0, 0, 0, 0];
    assert WordBytes(0) == w;
    var e := EncodeHex(w, true);
    EncodeHexAt(w, true);
    forall i | 0 <= i < |e| ensures e[i] == '0' {
      var k := i / 2;
      assert w[k] == 0;
      assert i == 2 * k || i == 2 * k + 1;
    }
    TrimStartAll(e, '0');
  }

  lemma HexStringZero()
    ensures HexString(0) == "0"
  {
    ZeroWordTrimsAway();
  }

  lemma HexStringNonZero(n: Int32)
    requires n != 0
    ensures HexString(n) == TrimStart(EncodeHex(WordBytes(n), true), '0')
    ensures HexValue(HexString(n)) == (n as int) % 0x1_0000_0000
    ensures HexString(n)[0] != '0'
  {
    var e := EncodeHex(WordBytes(n), true);
    EncodedWord(n);
    HexValueTrimStart(e);
    WordModZero(n);
    assert HexValue([]) == 0;
  }

  lemma HexStringDigits(n: Int32)
    ensures 1 <= |HexString(n)| <= 8
    ensures forall i :: 0 <= i < |HexString(n)| ==> IsLowerHexDigit(HexString(n)[i])
  {
    var e := EncodeHex(WordBytes(n), true);
    EncodedWordDigits(n);
    var t := TrimStart(e, '0');
    forall i | 0 <= i < |t| ensures IsLowerHexDigit(t[i]) {
      assert t[i] == e[|e| - |t| + i];
    }
    if |t| == 0 {
      assert HexString(n) == "0";
    } else {
      assert HexString(n) == t;
    }
  }

  /** `toHexString(n)`: "0" exactly for zero; otherwise at most eight
      lower-case hex digits without a leading zero, denoting `n` modulo 2^32. */
  lemma HexStringSpec(n: Int32)
    ensures HexString(n) == "0" <==> n == 0
    ensures 1 <= |HexString(n)| <= 8
    ensures forall i :: 0 <= i < |HexString(n)| ==> IsLowerHexDigit(HexString(n)[i])
    ensures n != 0 ==> HexString(n)[0] != '0'
    ensures HexValue(HexString(n)) == (n as int) % 0x1_0000_0000
  {
    HexStringDigits(n);
    if n == 0 {
      HexStringZero();
      assert HexValue("0") == HexValue([]) * 16 + HexToInt('0');
    } else {
      HexStringNonZero(n);
    }
  }

  /** Decoding a valid leading pair in front of a decodable rest. */
  lemma DecodeHexCons(s: string, b: Byte, rest: seq<Byte>)
    requires |s| >= 2 && IsHexDigit(s[0]) && IsHexDigit(s[1]) && DecodeHex(s[2..]) == Ok(rest)
    requires b == ToByte(HexToInt(s[0]) * 16 + HexToInt(s[1]))
    ensures DecodeHex(s) == Ok([b] + rest)
  {
  }

  /** The last four bytes of the CBOR strict-mode test vector. */
  lemma CborVectorTail()
    ensures DecodeHex("05617806") == Ok([5, 97, 120, 6])
  {
    var r7: seq<Byte> := [];
    assert DecodeHex("") == Ok(r7);
    assert "06"[2..] == "";
    DecodeHexCons("06", 6, r7);
    var r6 := [6 as Byte] + r7;
    assert "7806"[2..] == "06";
    DecodeHexCons("7806", 120, r6);
    var r5 := [120 as Byte] + r6;
    assert "617806"[2..] == "7806";
    DecodeHexCons("617806", 97, r5);
    var r4 := [97 as Byte] + r5;
    assert "05617806"[2..] == "617806";
    DecodeHexCons("05617806", 5, r4);
    var r3 := [5 as Byte] + r4;
    assert r3 == [5, 97, 120, 6];
  }

  /** The last six bytes of the CBOR strict-mode test vector. */
  lemma CborVectorMiddle()
    ensures DecodeHex("617805617806") == Ok([97, 120, 5, 97, 120, 6])
  {
    var r3: seq<Byte> := [5, 97, 120, 6];
    CborVectorTail();
    assert "7805617806"[2..] == "05617806";
    DecodeHexCons("7805617806", 120, r3);
    var r2 := [120 as Byte] + r3;
    assert "617805617806"[2..] == "7805617806";
    DecodeHexCons("617805617806", 97, r2);
    var r1 := [97 as Byte] + r2;
    assert r1 == [97, 120, 5, 97, 120, 6];
  }

  /** The test vector of the CBOR strict-mode test: seven bytes, of which the
      first (0xA2) reads as -94. */
  lemma ParseCborDuplicateKeysVector()
    ensures DecodeHex("A2617805617806") == Ok([-94, 97, 120, 5, 97, 120, 6])
  {
    var r1: seq<Byte> := [97, 120, 5, 97, 120, 6];
    CborVectorMiddle();
    assert "A2617805617806"[2..] == "617805617806";
    assert HexToInt('A') * 16 + HexToInt('2') == 162 && ToByte(162) == -94;
    DecodeHexCons("A2617805617806", -94, r1);
    var r0 := [-94 as Byte] + r1;
    assert r0 == [-94, 97, 120, 5, 97, 120, 6];
  }

  lemma WordBytes255()
    ensures WordBytes(255) == [0, 0, 0, -1]
  {
    assert Pow2(8) == 0x100 && Pow2(16) == 0x1_0000 && Pow2(24) == 0x100_0000;
  }

  lemma Encoded255()
    ensures EncodeHex([0, 0, 0, -1], true) == "000000ff"
  {
    var w: seq<Byte> := [0, 0, 0, -1];
    var e := EncodeHex(w, true);
    EncodeHexAt(w, true);
    assert HighNibble(0) == 0 && LowNibble(0) == 0 && HighNibble(-1) == 15 && LowNibble(-1) == 15;
    assert w[0] == 0 && w[1] == 0 && w[2] == 0 && w[3] == -1;
    assert e[2 * 0] == '0' && e[2 * 0 + 1] == '0' && e[2 * 1] == '0' && e[2 * 1 + 1] == '0';
    assert e[2 * 2] == '0' && e[2 * 2 + 1] == '0' && e[2 * 3] == 'f' && e[2 * 3 + 1] == 'f';
  }

  lemma Trim000000ff()
    ensures TrimStart("000000ff", '0') == "ff"
  {
    var e := "000000ff";
    var t := TrimStart(e, '0');
    assert e[6] != '0';
    assert |t| >= 2;
    assert t == e[6..];
  }

  /** 255 prints as "ff": `toHexString` lower-cases on its own. */
  lemma HexString255()
    ensures HexString(255) == "ff"
  {
    WordBytes255();
    Encoded255();
    Trim000000ff();
  }
}
