/**
 * Integers as parameters: how the C++ client formats them (`FormatHelper` and `htobe` in
 * `openapi-parameter-helper.hpp`) and how the Python server reads them (`parse_param_value` in
 * `reflect.py`).
 */
module IntCodec {
  import opened ByteValues
  import opened Text
  import opened Percent
  import opened Radix
  import B = Base64

  datatype Format = Decimal | Hex | Base64 | Base64Url

  const LEAST_INT64 := -0x8000_0000_0000_0000

  // ---- Bytes ----

  function Power256(n: nat): nat {
    if n == 0 then 1 else 256 * Power256(n - 1)
  }

  /** The `n` bytes of a number in memory, the lowest first. */
  function Memory(u: nat, n: nat): (b: B.Bytes)
    ensures |b| == n
  {
    if n == 0 then [] else [Byte(u % 256)] + Memory(u / 256, n - 1)
  }

  function Reversed<T>(s: seq<T>): (r: seq<T>)
    ensures |r| == |s|
    ensures forall i :: 0 <= i < |s| ==> r[i] == s[|s| - 1 - i]
  {
    if s == [] then [] else Reversed(s[1..]) + [s[0]]
  }

  /** Reading bytes with the highest first. */
  function BigEndian(b: B.Bytes): nat {
    if b == [] then 0 else BigEndian(b[..|b| - 1]) * 256 + b[|b| - 1] as int
  }

  lemma BigEndianAppend(b: B.Bytes, last: bv8)
    ensures BigEndian(b + [last]) == BigEndian(b) * 256 + last as int
  {
    assert (b + [last])[..|b|] == b;
  }

  lemma {:induction false} BigEndianReversed(u: nat, n: nat)
    requires u < Power256(n)
    ensures BigEndian(Reversed(Memory(u, n))) == u
  {
    if n > 0 {
      var rest := Memory(u / 256, n - 1);
      BigEndianReversed(u / 256, n - 1);
      assert Memory(u, n)[1..] == rest;
      BigEndianAppend(Reversed(rest), Byte(u % 256));
    }
  }

  /** `htobe` on a little-endian machine: the bytes of the value swap places. */
  method HostToBigEndian(v: array<bv8>)
    modifies v
    ensures v[..] == Reversed(old(v[..]))
  {
    var n := v.Length;
    for i := 0 to n / 2
      invariant forall k :: 0 <= k < i || n - i <= k < n ==> v[k] == old(v[n - 1 - k])
      invariant forall k :: i <= k < n - i ==> v[k] == old(v[k])
    {
      v[i], v[n - 1 - i] := v[n - 1 - i], v[i];
    }
    assert |v[..]| == n;
  }

  // ---- The client ----

  /** An integer of so many bytes, signed or not. */
  predicate Fits(v: int, size: nat) {
    size in {1, 2, 4, 8} && -(Power256(size) / 2) <= v < Power256(size)
  }

  /** Two's complement. */
  function Unsigned(v: int, size: nat): nat
    requires Fits(v, size)
  {
    if v < 0 then v + Power256(size) else v
  }

  function Signed(v: int, base: nat): string
    requires 2 <= base <= 16
  {
    if v < 0 then "-" + Print(-v, base) else Print(v, base)
  }

  /** Hexadecimal text goes through the absolute value, which the least 64-bit integer does not have. */
  predicate HasText(format: Format, v: int) {
    format == Hex ==> v != LEAST_INT64
  }

  function Formatted(format: Format, v: int, size: nat): string
    requires Fits(v, size) && HasText(format, v)
  {
    match format
    case Decimal => Signed(v, 10)
    case Hex => Signed(v, 16)
    case Base64 => BothAlphabets(); B.Encoded(B.STANDARD, Reversed(Memory(Unsigned(v, size), size)))
    case Base64Url => BothAlphabets(); B.Encoded(B.URL_SAFE, Reversed(Memory(Unsigned(v, size), size)))
  }

  lemma BothAlphabets()
    ensures B.IsAlphabet(B.STANDARD, B.IsBase64) && B.IsAlphabet(B.URL_SAFE, B.IsBase64Url)
    ensures |B.STANDARD| == 64 == |B.URL_SAFE|
  {
    B.BothAreAlphabets();
  }

  method FormatInteger(format: Format, v: int, size: nat) returns (s: string)
    requires Fits(v, size) && HasText(format, v)
    ensures s == Formatted(format, v, size)
  {
    if format == Decimal {
      return Signed(v, 10);
    }
    if format == Hex {
      return Signed(v, 16);
    }
    var memory := Memory(Unsigned(v, size), size);
    var buffer := new bv8[size](i requires 0 <= i < size => memory[i]);
    assert buffer[..] == memory;
    HostToBigEndian(buffer);
    if format == Base64 {
      s := B.Base64Encode(buffer[..]);
    } else {
      s := B.Base64UrlEncode(buffer[..]);
    }
  }

  // ---- The server ----

  /** `int(s, base)` on an optional sign and digits; its other liberties are not part of this model. */
  function ParseInt(s: string, base: nat): Option<int>
    requires 2 <= base <= 16
  {
    var digits := if s != "" && (s[0] == '-' || s[0] == '+') then s[1..] else s;
    if digits == "" || !IsNumeral(digits, base) then None
    else
      var magnitude: int := Value(digits, base);
      Some(if s[0] == '-' then -magnitude else magnitude)
  }

  /** Whole blocks of four characters, the last filled up with padding. */
  predicate IsPadded(has: char -> bool, s: string) {
    var k := B.Leading(has, s);
    |s| % 4 == 0 && |s| - k <= 2 && forall i :: k <= i < |s| ==> s[i] == '='
  }

  /** `b64decode` on well-padded text, which RFC 4648 defines; anything else is not part of this model. */
  function DecodeText(alphabet: string, has: char -> bool, s: string): Option<B.Bytes> {
    if IsPadded(has, s) then Some(B.Decoded(alphabet, has, s, 0)) else None
  }

  /** `struct.unpack` with `!b`, `!h`, `!i` or `!q`; other lengths have no entry in the table. */
  function UnpackSigned(b: B.Bytes): Option<int> {
    if |b| !in {1, 2, 4, 8} then None
    else
      var u, limit := BigEndian(b), Power256(|b|);
      if u >= limit / 2 then Some(u - limit) else Some(u)
  }

  function UnpackOptional(b: Option<B.Bytes>): Option<int> {
    if b.None? then None else UnpackSigned(b.value)
  }

  /** `parse_param_value` with `int` as the target type; `None` for an exception. */
  function ParseParamValue(format: Format, s: string): Option<int> {
    match format
    case Decimal => ParseInt(s, 10)
    case Hex => ParseInt(s, 16)
    case Base64 => UnpackOptional(DecodeText(B.STANDARD, B.IsBase64, s))
    case Base64Url => UnpackOptional(DecodeText(B.URL_SAFE, B.IsBase64Url, s))
  }

  // ---- The server reads what the client wrote ----

  lemma ParseDigits(digits: string, base: nat)
    requires 2 <= base <= 16 && digits != "" && IsNumeral(digits, base)
    ensures ParseInt(digits, base) == Some(Value(digits, base))
    ensures var magnitude: int := Value(digits, base); ParseInt("-" + digits, base) == Some(-magnitude)
  {
    assert digits[0] in digits && IsHexDigit(digits[0]);
    assert ("-" + digits)[1..] == digits;
  }

  lemma ParseSigned(v: int, base: nat)
    requires 2 <= base <= 16
    ensures ParseInt(Signed(v, base), base) == Some(v)
  {
    var n := if v < 0 then -v else v;
    var digits := Print(n, base);
    ValuePrint(n, base);
    ParseDigits(digits, base);
  }

  lemma PaddedText(has: char -> bool, text: string, n: nat)
    requires (forall c <- text :: has(c) && c != '=') && n <= 2 && (|text| + n) % 4 == 0
    ensures IsPadded(has, text + B.Repeated('=', n))
  {
    var pad := B.Repeated('=', n);
    B.LeadingText(has, text, pad);
    PaddingOnly(has, n);
    var s := text + pad;
    forall i | |text| <= i < |s| ensures s[i] == '=' {
      assert s[i] == pad[i - |text|] && pad[i - |text|] in pad;
    }
  }

  lemma {:induction false} EncodedIsPadded(alphabet: string, has: char -> bool, b: B.Bytes)
    requires B.IsAlphabet(alphabet, has)
    ensures DecodeText(alphabet, has, B.Encoded(alphabet, b)) == Some(b)
  {
    var n := (3 - |b| % 3) % 3;
    var text := B.EncodedShape(alphabet, has, b);
    B.EncodedLength(alphabet, b);
    PaddingOnly(has, n);
    PaddedText(has, text, n);
    B.DecodedEncoded(alphabet, has, b, 0);
  }

  lemma PaddingOnly(has: char -> bool, n: nat)
    ensures |B.Repeated('=', n)| == n && B.Leading(has, B.Repeated('=', n)) == 0
    ensures forall c <- B.Repeated('=', n) :: c == '='
  {
    B.RepeatedLength('=', n);
  }

  /** What the server makes of the bytes of a value: what they mean with a sign. */
  function Resigned(v: int, size: nat): int
    requires Fits(v, size)
  {
    if v < Power256(size) / 2 then v else v - Power256(size)
  }

  lemma UnpackMemory(v: int, size: nat)
    requires Fits(v, size)
    ensures UnpackSigned(Reversed(Memory(Unsigned(v, size), size))) == Some(Resigned(v, size))
  {
    BigEndianReversed(Unsigned(v, size), size);
  }

  lemma ParseBase64(format: Format, v: int, size: nat)
    requires Fits(v, size) && (format == Base64 || format == Base64Url)
    ensures ParseParamValue(format, Formatted(format, v, size)) == Some(Resigned(v, size))
  {
    var bytes := Reversed(Memory(Unsigned(v, size), size));
    BothAlphabets();
    UnpackMemory(v, size);
    if format == Base64 {
      EncodedIsPadded(B.STANDARD, B.IsBase64, bytes);
    } else {
      EncodedIsPadded(B.URL_SAFE, B.IsBase64Url, bytes);
    }
  }

  /**
   * Which integers come back: from text all, from their bytes exactly those that fit the signed type
   * of the same size.
   */
  lemma RoundTripExactly(format: Format, v: int, size: nat)
    requires Fits(v, size) && HasText(format, v)
    ensures ParseParamValue(format, Formatted(format, v, size)) == Some(v)
       <==> format.Decimal? || format.Hex? || v < Power256(size) / 2
  {
    match format
    case Decimal => ParseSigned(v, 10);
    case Hex => ParseSigned(v, 16);
    case _ => ParseBase64(format, v, size);
  }

  /** An integer of the signed type of its size. */
  predicate IsSigned(v: int, size: nat) {
    Fits(v, size) && v < Power256(size) / 2
  }

  /** Every signed integer comes back in every format. */
  lemma SignedRoundTrip(format: Format, v: int, size: nat)
    requires IsSigned(v, size) && HasText(format, v)
    ensures ParseParamValue(format, Formatted(format, v, size)) == Some(v)
  {
    RoundTripExactly(format, v, size);
  }
}
