/** Percent encoding (section 2.1 of RFC 3986), for any set of characters that is kept as it is. */
module Percent {
  import opened Text

  predicate IsDigit(c: char) { '0' <= c <= '9' }

  predicate IsAlpha(c: char) { 'a' <= c <= 'z' || 'A' <= c <= 'Z' }

  predicate IsAlnum(c: char) { IsAlpha(c) || IsDigit(c) }

  predicate IsHexDigit(c: char) { IsDigit(c) || 'a' <= c <= 'f' || 'A' <= c <= 'F' }

  predicate IsUnreserved(c: char) {
    IsAlnum(c) || c == '-' || c == '.' || c == '_' || c == '~'
  }

  predicate IsSubDelim(c: char) {
    c == '!' || c == '$' || c == '&' || c == '\'' || c == '(' || c == ')' ||
    c == '*' || c == '+' || c == ',' || c == ';' || c == '='
  }

  function HexDigit(v: nat, upper: bool): (c: char)
    requires v < 16
    ensures IsHexDigit(c) && HexValue(c) == v
  {
    if v < 10 then ('0' as int + v) as char else ((if upper then 'A' else 'a') as int + (v - 10)) as char
  }

  function HexValue(c: char): (v: nat)
    requires IsHexDigit(c)
    ensures v < 16
  {
    if IsDigit(c) then c as int - '0' as int
    else if 'a' <= c <= 'f' then c as int - 'a' as int + 10
    else c as int - 'A' as int + 10
  }

  /** Which bytes an encoder keeps besides the unreserved ones, and the case of the hex digits it writes. */
  datatype Encoder = Encoder(subDelims: bool, slash: bool, upper: bool) {
    predicate Keeps(c: char) {
      IsUnreserved(c) || (subDelims && IsSubDelim(c)) || (slash && c == '/')
    }

    function EncodeByte(c: char): string {
      if Keeps(c) then [c]
      else ['%', HexDigit(c as int / 16 % 16, upper), HexDigit(c as int % 16, upper)]
    }

    function Encode(s: string): string {
      if s == [] then "" else EncodeByte(s[0]) + Encode(s[1..])
    }
  }

  /** Reading back: a `%` without two hex digits behind it is dropped. */
  function Decode(s: string): string {
    if s == [] then ""
    else if s[0] != '%' then [s[0]] + Decode(s[1..])
    else if 3 <= |s| && IsHexDigit(s[1]) && IsHexDigit(s[2]) then
      [(HexValue(s[1]) * 16 + HexValue(s[2])) as char] + Decode(s[3..])
    else Decode(s[1..])
  }

  lemma {:induction false} DecodePlain(s: string)
    requires '%' !in s
    ensures Decode(s) == s
  {
    if s != "" {
      assert s[0] != '%' && forall c <- s[1..] :: c in s;
      DecodePlain(s[1..]);
    }
  }

  lemma DecodeFirst(c: char, rest: string)
    requires c != '%'
    ensures Decode([c] + rest) == [c] + Decode(rest)
  {
    assert ([c] + rest)[1..] == rest;
  }

  /** Up to the first percent sign everything stands for itself. */
  lemma {:induction false} DecodeUpToPercent(front: string, rest: string)
    requires '%' !in front
    ensures Decode(front + rest) == front + Decode(rest)
  {
    if front == "" {
      assert front + rest == rest && "" + Decode(rest) == Decode(rest);
    } else {
      var more := front[1..] + rest;
      assert front[0] != '%' && forall c <- front[1..] :: c in front;
      DecodeUpToPercent(front[1..], rest);
      DecodeFirst(front[0], more);
      assert front + rest == [front[0]] + more;
    }
  }

  /** Two hex digits behind a percent sign are the byte they write; without them the sign is dropped. */
  lemma DecodePercent(rest: string)
    ensures Decode("%" + rest) ==
      if 2 <= |rest| && IsHexDigit(rest[0]) && IsHexDigit(rest[1]) then
        [(HexValue(rest[0]) * 16 + HexValue(rest[1])) as char] + Decode(rest[2..])
      else Decode(rest)
  {
    var t := "%" + rest;
    assert t[1..] == rest && (3 <= |t| ==> t[3..] == rest[2..]);
  }

  lemma DecodeByte(e: Encoder, c: char, rest: string)
    requires c as int < 256
    ensures Decode(e.EncodeByte(c) + rest) == [c] + Decode(rest)
  {
    var head := e.EncodeByte(c);
    if e.Keeps(c) {
      assert (head + rest)[1..] == rest;
    } else {
      assert (head + rest)[3..] == rest;
    }
  }

  lemma {:induction false} DecodeEncode(e: Encoder, s: string)
    requires IsBytes(s)
    ensures Decode(e.Encode(s)) == s
  {
    if s != [] {
      assert s[0] in s && forall c <- s[1..] :: c in s;
      DecodeByte(e, s[0], e.Encode(s[1..]));
      DecodeEncode(e, s[1..]);
    }
  }

  /** Distinct byte strings have distinct encodings. */
  lemma EncodeInjective(e: Encoder, a: string, b: string)
    requires IsBytes(a) && IsBytes(b) && e.Encode(a) == e.Encode(b)
    ensures a == b
  {
    DecodeEncode(e, a);
    DecodeEncode(e, b);
  }

  /** Everything an encoder writes is a kept character or a percent sign. */
  lemma {:induction false} EncodeAlphabet(e: Encoder, s: string)
    ensures forall c <- e.Encode(s) :: e.Keeps(c) || c == '%'
  {
    if s != [] {
      EncodeAlphabet(e, s[1..]);
    }
  }

  lemma {:induction false} EncodeConcat(e: Encoder, a: string, b: string)
    ensures e.Encode(a + b) == e.Encode(a) + e.Encode(b)
  {
    if a == [] {
      assert a + b == b;
    } else {
      calc {
        e.Encode(a + b);
        { assert (a + b)[1..] == a[1..] + b; }
        e.EncodeByte(a[0]) + e.Encode(a[1..] + b);
        { EncodeConcat(e, a[1..], b); }
        e.EncodeByte(a[0]) + (e.Encode(a[1..]) + e.Encode(b));
        e.Encode(a) + e.Encode(b);
      }
    }
  }

  lemma EncodeAppend(e: Encoder, s: string, i: nat)
    requires i < |s|
    ensures e.Encode(s[..i + 1]) == e.Encode(s[..i]) + e.EncodeByte(s[i])
  {
    assert s[..i + 1] == s[..i] + [s[i]];
    EncodeConcat(e, s[..i], [s[i]]);
    assert [s[i]][1..] == [];
  }

  // ---- The normal form ----

  /** A letter, a digit or one of `marks`. */
  predicate IsPlain(c: char, marks: string) {
    'a' <= c <= 'z' || 'A' <= c <= 'Z' || '0' <= c <= '9' || c in marks
  }

  /** A hex digit whose letters begin at `a`. */
  predicate IsHexOf(c: char, a: char) {
    '0' <= c <= '9' || a <= c <= (if a == 'A' then 'F' else 'f')
  }

  /** At the front of `t` stands an escape, and for nothing that could have been kept. */
  predicate IsEscape(t: string, marks: string, a: char) {
    && 3 <= |t| && t[0] == '%' && IsHexOf(t[1], a) && IsHexOf(t[2], a) && IsHexDigit(t[1]) && IsHexDigit(t[2])
    && !IsPlain((HexValue(t[1]) * 16 + HexValue(t[2])) as char, marks)
  }

  /** Plain characters and escapes, whose letters begin at `a`; no escape stands for a plain character. */
  predicate IsNormal(t: string, marks: string, a: char) {
    t == "" || (if t[0] == '%' then IsEscape(t, marks, a) && IsNormal(t[3..], marks, a)
                else IsPlain(t[0], marks) && IsNormal(t[1..], marks, a))
  }

  /** The encoder keeps the plain characters, and writes letters from `a` on. */
  ghost predicate Writes(e: Encoder, marks: string, a: char) {
    && (forall c :: e.Keeps(c) <==> IsPlain(c, marks)) && '%' !in marks
    && a == (if e.upper then 'A' else 'a')
  }

  lemma HexDigitIsHexOf(v: nat, upper: bool)
    requires v < 16
    ensures IsHexOf(HexDigit(v, upper), if upper then 'A' else 'a')
  {
  }

  lemma HexOfIsHexDigit(c: char, upper: bool)
    requires IsHexOf(c, if upper then 'A' else 'a')
    ensures IsHexDigit(c) && HexDigit(HexValue(c), upper) == c
  {
  }

  lemma TwoDigits(x: nat, y: nat)
    requires x < 16 && y < 16
    ensures (x * 16 + y) / 16 % 16 == x && (x * 16 + y) % 16 == y
  {
  }

  lemma EscapeOfByte(c: char, upper: bool)
    requires c as int < 256
    ensures (HexValue(HexDigit(c as int / 16 % 16, upper)) * 16 + HexValue(HexDigit(c as int % 16, upper))) as char == c
  {
  }

  lemma EncodedByteIsEscape(e: Encoder, c: char, rest: string, marks: string, a: char)
    requires Writes(e, marks, a) && c as int < 256 && !e.Keeps(c)
    ensures IsEscape(e.EncodeByte(c) + rest, marks, a)
  {
    var t := e.EncodeByte(c) + rest;
    var x, y := c as int / 16 % 16, c as int % 16;
    HexDigitIsHexOf(x, e.upper);
    HexDigitIsHexOf(y, e.upper);
    EscapeOfByte(c, e.upper);
    assert t[0] == '%' && t[1] == HexDigit(x, e.upper) && t[2] == HexDigit(y, e.upper);
    assert IsPlain(c, marks) <==> e.Keeps(c);
  }

  lemma EncodedByteOfEscape(e: Encoder, t: string, marks: string, a: char)
    requires Writes(e, marks, a) && IsEscape(t, marks, a)
    ensures e.EncodeByte((HexValue(t[1]) * 16 + HexValue(t[2])) as char) == t[..3]
  {
    var c := (HexValue(t[1]) * 16 + HexValue(t[2])) as char;
    assert IsPlain(c, marks) <==> e.Keeps(c);
    TwoDigits(HexValue(t[1]), HexValue(t[2]));
    HexOfIsHexDigit(t[1], e.upper);
    HexOfIsHexDigit(t[2], e.upper);
  }

  lemma {:induction false} EncodedIsNormal(e: Encoder, s: string, marks: string, a: char)
    requires Writes(e, marks, a) && IsBytes(s)
    ensures IsNormal(e.Encode(s), marks, a)
  {
    if s != [] {
      var c, rest := s[0], e.Encode(s[1..]);
      assert c in s && forall d <- s[1..] :: d in s;
      EncodedIsNormal(e, s[1..], marks, a);
      assert IsPlain(c, marks) <==> e.Keeps(c);
      if e.Keeps(c) {
        assert ([c] + rest)[1..] == rest;
      } else {
        EncodedByteIsEscape(e, c, rest, marks, a);
        assert (e.EncodeByte(c) + rest)[3..] == rest;
      }
    }
  }

  lemma {:induction false} NormalIsEncoded(e: Encoder, t: string, marks: string, a: char)
    requires Writes(e, marks, a) && IsNormal(t, marks, a)
    ensures e.Encode(Decode(t)) == t
  {
    if t != "" {
      var c, rest := if t[0] == '%' then (HexValue(t[1]) * 16 + HexValue(t[2])) as char else t[0],
                     if t[0] == '%' then t[3..] else t[1..];
      NormalIsEncoded(e, rest, marks, a);
      assert Decode(t) == [c] + Decode(rest);
      assert ([c] + Decode(rest))[1..] == Decode(rest);
      if t[0] == '%' {
        EncodedByteOfEscape(e, t, marks, a);
        assert t == t[..3] + t[3..];
      } else {
        assert IsPlain(c, marks) <==> e.Keeps(c);
        assert t == [c] + t[1..];
      }
    }
  }

  /** An encoding is the one text in normal form that decodes to what was encoded. */
  lemma EncodedExactly(e: Encoder, s: string, t: string, marks: string, a: char)
    requires Writes(e, marks, a) && IsBytes(s)
    ensures t == e.Encode(s) <==> IsNormal(t, marks, a) && Decode(t) == s
  {
    DecodeEncode(e, s);
    EncodedIsNormal(e, s, marks, a);
    if IsNormal(t, marks, a) {
      NormalIsEncoded(e, t, marks, a);
    }
  }
}
