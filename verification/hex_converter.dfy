/** The deprecated public `HexConverter` object: every operation forwards to
    `InternalHexConverter`, so each one here is the internal method with the
    internal contract, restated on the public surface together with the
    consequences a caller relies on. */
module HexConverter {
  import opened InternalHexConverter

  /** `HexConverter.parseHexBinary`: the internal parser, unchanged. */
  method ParseHexBinary(s: string) returns (r: Result<seq<Byte>>)
    ensures r == DecodeHex(s)
    ensures r.Ok? <==> |s| % 2 == 0 && forall i :: 0 <= i < |s| ==> IsHexDigit(s[i])
    ensures r.Ok? ==> |r.value| == |s| / 2
  {
    r := InternalHexConverter.ParseHexBinary(s);
    DecodeHexSucceeds(s);
    if r.Ok? {
      DecodeHexBytes(s);
    }
  }

  /** `HexConverter.printHexBinary`: the internal printer, unchanged; what it
      prints parses back to the same bytes. */
  method PrintHexBinary(data: seq<Byte>, lowerCase: bool := false) returns (s: string)
    ensures s == EncodeHex(data, lowerCase)
    ensures |s| == 2 * |data|
    ensures DecodeHex(s) == Ok(data)
  {
    s := InternalHexConverter.PrintHexBinary(data, lowerCase);
    EncodeHexAt(data, lowerCase);
    RoundTrip(data, lowerCase);
  }

  /** `HexConverter.toHexString`: the internal renderer, unchanged. */
  method ToHexString(n: Int32) returns (s: string)
    ensures s == HexString(n)
    ensures s == "0" <==> n == 0
    ensures 1 <= |s| <= 8
    ensures HexValue(s) == (n as int) % 0x1_0000_0000
  {
    s := InternalHexConverter.ToHexString(n);
    HexStringSpec(n);
  }
}
