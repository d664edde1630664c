/**
 * Integers in parameters from end to end: formatted and joined by the client, carried in a path,
 * query or header, split and parsed by the server.
 */
module ParameterCodec {
  import opened Base64
  import opened ByteValues
  import opened IntCodec
  import opened ParamStyle
  import opened Percent
  import opened Radix
  import opened Text
  import opened Uri

  // ---- The characters of formatted integers ----

  predicate IsFormatChar(format: IntCodec.Format, c: char) {
    match format
    case Decimal => IsHexDigit(c) || c == '-'
    case Hex => IsHexDigit(c) || c == '-'
    case Base64 => IsBase64(c) || c == '='
    case Base64Url => IsBase64Url(c) || c == '='
  }

  lemma EncodedChars(alphabet: string, has: char -> bool, b: Bytes)
    requires IsAlphabet(alphabet, has)
    ensures forall c <- Encoded(alphabet, b) :: has(c) || c == '='
  {
    var text := EncodedShape(alphabet, has, b);
    RepeatedLength('=', (3 - |b| % 3) % 3);
  }

  lemma FormattedChars(format: IntCodec.Format, v: int, size: nat)
    requires IntCodec.Fits(v, size) && HasText(format, v)
    ensures forall c <- Formatted(format, v, size) :: IsFormatChar(format, c)
  {
    var magnitude := if v < 0 then -v else v;
    match format
    case Decimal => PrintIsNumeral(magnitude, 10);
    case Hex => PrintIsNumeral(magnitude, 16);
    case Base64 =>
      BothAlphabets();
      EncodedChars(STANDARD, IsBase64, IntCodec.Reversed(Memory(Unsigned(v, size), size)));
    case Base64Url =>
      BothAlphabets();
      EncodedChars(URL_SAFE, IsBase64Url, IntCodec.Reversed(Memory(Unsigned(v, size), size)));
  }

  // ---- Arrays ----

  ghost predicate AllSigned(format: IntCodec.Format, vs: seq<int>, size: nat) {
    forall v <- vs :: IsSigned(v, size) && HasText(format, v)
  }

  function FormattedAll(format: IntCodec.Format, vs: seq<int>, size: nat): (r: seq<string>)
    requires forall v <- vs :: IntCodec.Fits(v, size) && HasText(format, v)
    ensures |r| == |vs| && forall i :: 0 <= i < |vs| ==> r[i] == Formatted(format, vs[i], size)
  {
    if vs == [] then [] else [Formatted(format, vs[0], size)] + FormattedAll(format, vs[1..], size)
  }

  /** `parse_param_values`. */
  function ParseParamValues(format: IntCodec.Format, texts: seq<string>): Option<seq<int>> {
    if texts == [] then Some([])
    else
      var first, rest := ParseParamValue(format, texts[0]), ParseParamValues(format, texts[1..]);
      if first.None? || rest.None? then None else Some([first.value] + rest.value)
  }

  /** A reader of single values makes this number of the text. */
  ghost predicate ReadsAs(parse: (IntCodec.Format, string) -> Option<int>, format: IntCodec.Format, text: string, v: int) {
    parse(format, text) == Some(v)
  }

  lemma {:induction false} ParseEach(format: IntCodec.Format, texts: seq<string>, vs: seq<int>)
    requires |texts| == |vs| && forall i :: 0 <= i < |vs| ==> ReadsAs(ParseParamValue, format, texts[i], vs[i])
    ensures ParseParamValues(format, texts) == Some(vs)
  {
    if vs != [] {
      assert ReadsAs(ParseParamValue, format, texts[0], vs[0]);
      ParseEach(format, texts[1..], vs[1..]);
      assert [vs[0]] + vs[1..] == vs;
    }
  }

  lemma ParseFormattedAll(format: IntCodec.Format, vs: seq<int>, size: nat)
    requires AllSigned(format, vs, size)
    ensures ParseParamValues(format, FormattedAll(format, vs, size)) == Some(vs)
  {
    var texts := FormattedAll(format, vs, size);
    forall i | 0 <= i < |vs| ensures ReadsAs(ParseParamValue, format, texts[i], vs[i]) {
      SignedRoundTrip(format, vs[i], size);
    }
    ParseEach(format, texts, vs);
  }

  predicate IsSeparator(c: char) {
    c == ',' || c == '.' || c == ';' || c == '/'
  }

  lemma NoSeparator(format: IntCodec.Format, text: string, c: char)
    requires (forall d <- text :: IsFormatChar(format, d)) && IsSeparator(c) && (c == '/' ==> format != IntCodec.Base64)
    ensures c !in text
  {
    assert !IsFormatChar(format, c);
  }

  lemma SeparatorOf(p: Parameter)
    ensures IsSeparator(Separator(p)[0]) && Separator(p)[0] != '/'
  {
  }

  /** A formatted integer never contains what separates the elements of an array. */
  lemma {:induction false} FormattedSeparable(format: IntCodec.Format, vs: seq<int>, size: nat, c: char)
    requires AllSigned(format, vs, size) && IsSeparator(c) && c != '/'
    ensures forall e <- FormattedAll(format, vs, size) :: c !in e
  {
    if vs != [] {
      assert vs[0] in vs && forall v <- vs[1..] :: v in vs;
      var text := Formatted(format, vs[0], size);
      FormattedChars(format, vs[0], size);
      NoSeparator(format, text, c);
      FormattedSeparable(format, vs[1..], size, c);
    }
  }

  /**
   * Every list of signed integers but the empty one comes back from every legal parameter, in each
   * style and format, exploded or not. The empty one does where its elements are not joined.
   */
  lemma ArrayRoundTrip(p: Parameter, format: IntCodec.Format, vs: seq<int>, size: nat)
    requires IsLegal(p) && AllSigned(format, vs, size) && (vs != [] || (p.location != Path && p.explode))
    ensures var v := Many(FormattedAll(format, vs, size));
      if p.location == Path then
        var text := PathText(p, v).value;
        |Prefix(p)| <= |text| && ParseParamValues(format, ReadPath(p, text)) == Some(vs)
      else ParseParamValues(format, ReadPairs(p, QueryOrHeaderPairs(p, v).value)) == Some(vs)
  {
    var elements := FormattedAll(format, vs, size);
    SeparatorOf(p);
    FormattedSeparable(format, vs, size, Separator(p)[0]);
    ParseFormattedAll(format, vs, size);
    if p.location == Path {
      PathReadBack(p, elements);
    } else {
      PairsReadBack(p, elements);
    }
  }

  /** Every signed integer comes back from every legal parameter, in each style and format. */
  lemma SingleRoundTrip(p: Parameter, format: IntCodec.Format, v: int, size: nat)
    requires IsLegal(p) && IsSigned(v, size) && HasText(format, v)
    ensures var single := One(Formatted(format, v, size));
      if p.location == Path then
        var text := PathText(p, single).value;
        Prefix(p) <= text && ParseParamValue(format, text[|Prefix(p)|..]) == Some(v)
      else
        var pairs := QueryOrHeaderPairs(p, single).value;
        |pairs| == 1 && pairs[0].0 == p.ident && ParseParamValue(format, pairs[0].1) == Some(v)
  {
    var text := Formatted(format, v, size);
    SignedRoundTrip(format, v, size);
    SingleReadBack(p, text);
    assert (Prefix(p) + text)[|Prefix(p)|..] == text;
  }

  // ---- Integers as path segments ----

  /** The path of a template whose last hole the formatted integer fills, behind a slash. */
  function SegmentOf(format: IntCodec.Format, v: int, size: nat): string
    requires IntCodec.Fits(v, size) && HasText(format, v)
  {
    "/" + Formatted(format, v, size)
  }

  lemma NoSlashKept(text: string)
    requires '/' !in text
    ensures Append(PushPlain, "", "/" + text) == "/" + text
  {
    PathKeptExactly("/" + text);
  }

  lemma SlashLost(text: string)
    requires text != "" && text[0] == '/'
    ensures Append(PushPlain, "", "/" + text) != "/" + text
  {
    var part := "/" + text;
    assert part[0] == '/' && part[1] == '/';
    PathKeptExactly(part);
  }

  lemma LastByte(b: bv8)
    requires b as int == 255
    ensures Sextet0(b) == 63
  {
  }

  lemma PowerPositive(n: nat)
    ensures Power256(n) >= 1
  {
  }

  lemma {:induction false} HighestByte(u: nat, n: nat)
    requires n > 0 && u == Power256(n) - 1
    ensures Memory(u, n)[n - 1] as int == 255
  {
    if n > 1 {
      PowerPositive(n - 1);
      assert u / 256 == Power256(n - 1) - 1;
      HighestByte(u / 256, n - 1);
    }
  }

  /** The first character of an encoding. */
  lemma FirstChar(b: Bytes)
    requires b != [] && b[0] as int == 255 && |STANDARD| == 64
    ensures Encoded(STANDARD, b) != "" && Encoded(STANDARD, b)[0] == STANDARD[63]
  {
    LastByte(b[0]);
  }

  /** Minus one starts with a slash in standard base64. */
  lemma MinusOne(size: nat)
    requires size in {1, 2, 4, 8}
    ensures IsSigned(-1, size)
    ensures var text := Formatted(IntCodec.Base64, -1, size); text != "" && text[0] == '/'
  {
    PowerPositive(size - 1);
    var u := Unsigned(-1, size);
    HighestByte(u, size);
    BothAlphabets();
    FirstChar(IntCodec.Reversed(Memory(u, size)));
    LastOfStandard();
  }

  lemma LastOfStandard()
    ensures |STANDARD| == 64 && STANDARD[63] == '/'
  {
    StandardAt(63);
  }

  /**
   * For which formats a path with an integer behind a slash is appended unchanged, whatever the
   * integer: all but standard base64, whose slashes run together with those around them.
   */
  lemma SegmentKeptExactly(format: IntCodec.Format, size: nat)
    requires size in {1, 2, 4, 8}
    ensures (forall v :: IsSigned(v, size) && HasText(format, v) ==>
               Append(PushPlain, "", SegmentOf(format, v, size)) == SegmentOf(format, v, size))
       <==> format != IntCodec.Base64
  {
    if format == IntCodec.Base64 {
      MinusOne(size);
      SlashLost(Formatted(format, -1, size));
    } else {
      forall v | IsSigned(v, size) && HasText(format, v)
        ensures Append(PushPlain, "", SegmentOf(format, v, size)) == SegmentOf(format, v, size)
      {
        FormattedChars(format, v, size);
        NoSeparator(format, Formatted(format, v, size), '/');
        NoSlashKept(Formatted(format, v, size));
      }
    }
  }
}
