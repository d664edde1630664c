/** Base64 and base64url (`base64.cpp`; sections 4 and 5 of RFC 4648). */
module Base64 {
  import opened ByteValues
  import opened Text
  import opened Percent

  const UPPER := "ABCDEFGHIJKLMNOPQRSTUVWXYZ"
  const LOWER := "abcdefghijklmnopqrstuvwxyz"
  const DIGITS := "0123456789"

  const ALNUM := UPPER + LOWER + DIGITS

  const STANDARD := ALNUM + "+/"
  const URL_SAFE := ALNUM + "-_"

  predicate IsBase64(c: char) {
    IsAlnum(c) || c == '+' || c == '/'
  }

  predicate IsBase64Url(c: char) {
    IsAlnum(c) || c == '-' || c == '_'
  }

  function At(alphabet: string, v: bv8): char
    requires |alphabet| == 64 && v < 64
  {
    alphabet[v as int]
  }

  /** `find`; what it reports for a character that is not there ends up as the byte 0xFF. */
  function Find(alphabet: string, c: char): bv8 {
    var i := IndexOf(alphabet, c, 0);
    if i < |alphabet| && i < 64 then Byte(i) else 0xFF
  }

  lemma UpperAt(i: nat)
    requires i < 26
    ensures UPPER[i] == ('A' as int + i) as char
  {
  }

  lemma LowerAt(i: nat)
    requires i < 26
    ensures LOWER[i] == ('a' as int + i) as char
  {
  }

  lemma DigitAt(i: nat)
    requires i < 10
    ensures DIGITS[i] == ('0' as int + i) as char
  {
  }

  /** The value of an alphabet character in arithmetic. */
  function ValueOf(c: char): nat {
    if 'A' <= c <= 'Z' then c as int - 'A' as int
    else if 'a' <= c <= 'z' then c as int - 'a' as int + 26
    else if '0' <= c <= '9' then c as int - '0' as int + 52
    else if c == '+' || c == '-' then 62
    else 63
  }

  lemma AlnumAt(i: nat)
    requires i < 62
    ensures |ALNUM| == 62 && IsAlnum(ALNUM[i]) && ValueOf(ALNUM[i]) == i
  {
    if i < 26 {
      UpperAt(i);
    } else if i < 52 {
      LowerAt(i - 26);
    } else {
      DigitAt(i - 52);
    }
  }

  lemma TwoBehind(front: string, two: string, i: nat)
    requires |front| == 62 && |two| == 2 && i < 64
    ensures |front + two| == 64 && (front + two)[i] == if i < 62 then front[i] else two[i - 62]
  {
  }

  lemma StandardAt(i: nat)
    requires i < 64
    ensures |STANDARD| == 64 && IsBase64(STANDARD[i]) && ValueOf(STANDARD[i]) == i
  {
    AlnumAt(if i < 62 then i else 0);
    TwoBehind(ALNUM, "+/", i);
  }

  lemma UrlSafeAt(i: nat)
    requires i < 64
    ensures |URL_SAFE| == 64 && IsBase64Url(URL_SAFE[i]) && ValueOf(URL_SAFE[i]) == i
  {
    AlnumAt(if i < 62 then i else 0);
    TwoBehind(ALNUM, "-_", i);
  }

  lemma StandardHas(c: char)
    requires IsBase64(c)
    ensures ValueOf(c) < |STANDARD| == 64 && STANDARD[ValueOf(c)] == c
  {
    StandardAt(ValueOf(c));
  }

  lemma UrlSafeHas(c: char)
    requires IsBase64Url(c)
    ensures ValueOf(c) < |URL_SAFE| == 64 && URL_SAFE[ValueOf(c)] == c
  {
    UrlSafeAt(ValueOf(c));
  }

  /** Sixty-four different characters, told apart from all others and from the padding by `has`. */
  ghost predicate IsAlphabet(alphabet: string, has: char -> bool) {
    && |alphabet| == 64 && !has('=')
    && (forall i :: 0 <= i < 64 ==> has(alphabet[i]))
    && (forall i, j :: 0 <= i < j < 64 ==> alphabet[i] != alphabet[j])
    && (forall c :: has(c) ==> c in alphabet)
  }

  lemma BothAreAlphabets()
    ensures IsAlphabet(STANDARD, IsBase64) && IsAlphabet(URL_SAFE, IsBase64Url)
  {
    StandardIsAlphabet();
    UrlSafeIsAlphabet();
  }

  lemma StandardIsAlphabet()
    ensures IsAlphabet(STANDARD, IsBase64)
  {
    StandardAt(0);
    forall i | 0 <= i < 64 ensures IsBase64(STANDARD[i]) && ValueOf(STANDARD[i]) == i {
      StandardAt(i);
    }
    forall c | IsBase64(c) ensures c in STANDARD {
      StandardHas(c);
    }
  }

  lemma UrlSafeIsAlphabet()
    ensures IsAlphabet(URL_SAFE, IsBase64Url)
  {
    UrlSafeAt(0);
    forall i | 0 <= i < 64 ensures IsBase64Url(URL_SAFE[i]) && ValueOf(URL_SAFE[i]) == i {
      UrlSafeAt(i);
    }
    forall c | IsBase64Url(c) ensures c in URL_SAFE {
      UrlSafeHas(c);
    }
  }

  lemma SmallByte(v: bv8)
    requires v as int < 64
    ensures v < 64
  {
  }

  lemma FindAt(alphabet: string, has: char -> bool, v: bv8)
    requires IsAlphabet(alphabet, has) && v < 64
    ensures Find(alphabet, At(alphabet, v)) == v && has(At(alphabet, v)) && At(alphabet, v) != '='
  {
    IndexOfUnique(alphabet, alphabet[v as int], 0, v as int);
  }

  /** No character of the alphabet is looked for in vain. */
  lemma FindHas(alphabet: string, has: char -> bool, c: char)
    requires IsAlphabet(alphabet, has) && has(c)
    ensures Find(alphabet, c) < 64 && At(alphabet, Find(alphabet, c)) == c
  {
    var i :| 0 <= i < 64 && alphabet[i] == c;
    IndexOfUnique(alphabet, c, 0, i);
    SmallByte(Byte(i));
  }

  // ---- Blocks ----

  type Bytes = seq<bv8>

  ghost predicate Small(q: Bytes) {
    forall i :: 0 <= i < |q| ==> q[i] < 64
  }

  function Sextet0(b0: bv8): (v: bv8)
    ensures v < 64
  {
    (b0 & 0xfc) >> 2
  }

  function Sextet1(b0: bv8, b1: bv8): (v: bv8)
    ensures v < 64
  {
    ((b0 & 0x03) << 4) + ((b1 & 0xf0) >> 4)
  }

  function Sextet2(b1: bv8, b2: bv8): (v: bv8)
    ensures v < 64
  {
    ((b1 & 0x0f) << 2) + ((b2 & 0xc0) >> 6)
  }

  function Sextet3(b2: bv8): (v: bv8)
    ensures v < 64
  {
    b2 & 0x3f
  }

  function Sextets(b0: bv8, b1: bv8, b2: bv8): (q: Bytes)
    ensures |q| == 4 && Small(q)
  {
    [Sextet0(b0), Sextet1(b0, b1), Sextet2(b1, b2), Sextet3(b2)]
  }

  function Octet0(q0: bv8, q1: bv8): bv8 {
    (q0 << 2) + ((q1 & 0x30) >> 4)
  }

  function Octet1(q1: bv8, q2: bv8): bv8 {
    ((q1 & 0xf) << 4) + ((q2 & 0x3c) >> 2)
  }

  function Octet2(q2: bv8, q3: bv8): bv8 {
    ((q2 & 0x3) << 6) + q3
  }

  function Octets(q0: bv8, q1: bv8, q2: bv8, q3: bv8): (b: Bytes)
    ensures |b| == 3
  {
    [Octet0(q0, q1), Octet1(q1, q2), Octet2(q2, q3)]
  }

  /** Three bytes and their four sextets are one number of 24 bits, the highest first. */
  lemma SextetsAreNumber(b0: bv8, b1: bv8, b2: bv8)
    ensures ((b0 as bv24) << 16) | ((b1 as bv24) << 8) | (b2 as bv24)
         == ((Sextet0(b0) as bv24) << 18) | ((Sextet1(b0, b1) as bv24) << 12) | ((Sextet2(b1, b2) as bv24) << 6)
            | (Sextet3(b2) as bv24)
  {
  }

  lemma OctetsSextets(b0: bv8, b1: bv8, b2: bv8)
    ensures var q := Sextets(b0, b1, b2); Octets(q[0], q[1], q[2], q[3]) == [b0, b1, b2]
  {
  }

  // ---- Encoding ----

  function Chars(alphabet: string, q: Bytes): (c: string)
    requires |alphabet| == 64 && Small(q)
    ensures |c| == |q| && forall i :: 0 <= i < |c| ==> c[i] == At(alphabet, q[i])
  {
    if q == [] then "" else Chars(alphabet, q[..|q| - 1]) + [At(alphabet, q[|q| - 1])]
  }

  function Repeated(c: char, n: nat): string {
    if n == 0 then "" else [c] + Repeated(c, n - 1)
  }

  function Encoded(alphabet: string, b: Bytes): string
    requires |alphabet| == 64
  {
    if b == [] then ""
    else if |b| < 3 then
      Chars(alphabet, Sextets(b[0], if |b| > 1 then b[1] else 0, 0)[..|b| + 1]) + Repeated('=', 3 - |b|)
    else Chars(alphabet, Sextets(b[0], b[1], b[2])) + Encoded(alphabet, b[3..])
  }

  // ---- Decoding ----

  /** The characters in front of the first one outside the alphabet. */
  function Leading(has: char -> bool, s: string): (k: nat)
    ensures k <= |s|
  {
    if s == "" || s[0] == '=' || !has(s[0]) then 0 else 1 + Leading(has, s[1..])
  }

  /** `filler` stands for what the alphabet gives for the missing characters of the last block. */
  function Decoded(alphabet: string, has: char -> bool, s: string, filler: bv8): Bytes {
    var k := Leading(has, s);
    if k == 0 then []
    else
      var q0 := Find(alphabet, s[0]);
      var q1 := if k > 1 then Find(alphabet, s[1]) else filler;
      var q2 := if k > 2 then Find(alphabet, s[2]) else filler;
      var q3 := if k > 3 then Find(alphabet, s[3]) else filler;
      if k < 4 then Octets(q0, q1, q2, q3)[..k - 1]
      else Octets(q0, q1, q2, q3) + Decoded(alphabet, has, s[4..], filler)
  }

  lemma LeadingFour(has: char -> bool, s: string)
    requires Leading(has, s) >= 4
    ensures Leading(has, s) == 4 + Leading(has, s[4..])
  {
    assert Leading(has, s) == 1 + Leading(has, s[1..]);
    assert s[1..][1..] == s[2..] && Leading(has, s[1..]) == 1 + Leading(has, s[2..]);
    assert s[2..][1..] == s[3..] && Leading(has, s[2..]) == 1 + Leading(has, s[3..]);
    assert s[3..][1..] == s[4..];
  }

  /** What stands for a missing character never reaches the output. */
  lemma {:induction false} FillerUnseen(alphabet: string, has: char -> bool, s: string, f: bv8, g: bv8)
    ensures Decoded(alphabet, has, s, f) == Decoded(alphabet, has, s, g)
  {
    if Leading(has, s) >= 4 {
      FillerUnseen(alphabet, has, s[4..], f, g);
    }
  }

  /** Of `k` alphabet characters the decoder makes three quarters as many bytes. */
  lemma {:induction false} DecodedLength(alphabet: string, has: char -> bool, s: string, filler: bv8)
    ensures |Decoded(alphabet, has, s, filler)| == Leading(has, s) * 3 / 4
  {
    if Leading(has, s) >= 4 {
      LeadingFour(has, s);
      DecodedLength(alphabet, has, s[4..], filler);
    }
  }

  // ---- Decoding undoes encoding ----

  /** A text that begins with `k` characters of the alphabet. */
  lemma {:induction false} LeadingText(has: char -> bool, text: string, rest: string)
    requires forall c <- text :: has(c) && c != '='
    ensures Leading(has, text + rest) == |text| + Leading(has, rest)
  {
    if text == "" {
      assert text + rest == rest;
    } else {
      assert text[0] in text && forall c <- text[1..] :: c in text;
      LeadingText(has, text[1..], rest);
      assert (text + rest)[1..] == text[1..] + rest;
    }
  }

  lemma CharsBack(alphabet: string, has: char -> bool, q: Bytes, rest: string)
    requires IsAlphabet(alphabet, has) && Small(q)
    ensures var s := Chars(alphabet, q) + rest;
      Leading(has, s) == |q| + Leading(has, rest) && forall i :: 0 <= i < |q| ==> Find(alphabet, s[i]) == q[i]
  {
    forall i | 0 <= i < |q| ensures Find(alphabet, At(alphabet, q[i])) == q[i] && has(At(alphabet, q[i])) {
      FindAt(alphabet, has, q[i]);
    }
    LeadingText(has, Chars(alphabet, q), rest);
  }

  lemma BlockBack(alphabet: string, has: char -> bool, q: Bytes, rest: string, filler: bv8)
    requires IsAlphabet(alphabet, has) && Small(q) && |q| == 4
    ensures Decoded(alphabet, has, Chars(alphabet, q) + rest, filler)
         == Octets(q[0], q[1], q[2], q[3]) + Decoded(alphabet, has, rest, filler)
  {
    CharsBack(alphabet, has, q, rest);
    assert (Chars(alphabet, q) + rest)[4..] == rest;
  }

  /** Two or three characters for the last bytes. */
  lemma LastBlockBack(alphabet: string, has: char -> bool, q: Bytes, filler: bv8)
    requires IsAlphabet(alphabet, has) && Small(q) && (|q| == 2 || |q| == 3)
    ensures Decoded(alphabet, has, Chars(alphabet, q) + Repeated('=', 4 - |q|), filler)
         == Octets(q[0], q[1], if |q| == 3 then q[2] else filler, filler)[..|q| - 1]
  {
    CharsBack(alphabet, has, q, Repeated('=', 4 - |q|));
  }

  lemma OctetsOfLast(b0: bv8, b1: bv8, x: bv8, y: bv8)
    ensures var q := Sextets(b0, 0, 0); Octets(q[0], q[1], x, y)[..1] == [b0]
    ensures var q := Sextets(b0, b1, 0); Octets(q[0], q[1], q[2], y)[..2] == [b0, b1]
  {
    OctetsSextets(b0, 0, 0);
    OctetsSextets(b0, b1, 0);
  }

  lemma LastBack(alphabet: string, has: char -> bool, b: Bytes, filler: bv8)
    requires IsAlphabet(alphabet, has) && (|b| == 1 || |b| == 2)
    ensures Decoded(alphabet, has, Encoded(alphabet, b), filler) == b
  {
    var b1 := if |b| > 1 then b[1] else 0;
    OctetsOfLast(b[0], b1, filler, filler);
    LastBlockBack(alphabet, has, Sextets(b[0], b1, 0)[..|b| + 1], filler);
  }

  lemma FirstBack(alphabet: string, has: char -> bool, b: Bytes, filler: bv8)
    requires IsAlphabet(alphabet, has) && |b| > 2
    ensures Decoded(alphabet, has, Encoded(alphabet, b), filler)
         == [b[0], b[1], b[2]] + Decoded(alphabet, has, Encoded(alphabet, b[3..]), filler)
  {
    OctetsSextets(b[0], b[1], b[2]);
    BlockBack(alphabet, has, Sextets(b[0], b[1], b[2]), Encoded(alphabet, b[3..]), filler);
  }

  /** For every byte string, and so for both alphabets. */
  lemma {:induction false} DecodedEncoded(alphabet: string, has: char -> bool, b: Bytes, filler: bv8)
    requires IsAlphabet(alphabet, has)
    ensures Decoded(alphabet, has, Encoded(alphabet, b), filler) == b
  {
    if |b| == 1 || |b| == 2 {
      LastBack(alphabet, has, b, filler);
    } else if |b| > 2 {
      FirstBack(alphabet, has, b, filler);
      DecodedEncoded(alphabet, has, b[3..], filler);
      assert [b[0], b[1], b[2]] + b[3..] == b;
    }
  }

  lemma CharsHave(alphabet: string, has: char -> bool, q: Bytes)
    requires IsAlphabet(alphabet, has) && Small(q)
    ensures forall c <- Chars(alphabet, q) :: has(c) && c != '='
  {
  }

  /** The alphabet's characters first, and then the padding. */
  lemma {:induction false} EncodedShape(alphabet: string, has: char -> bool, b: Bytes) returns (text: string)
    requires IsAlphabet(alphabet, has)
    ensures Encoded(alphabet, b) == text + Repeated('=', (3 - |b| % 3) % 3) && (forall c <- text :: has(c) && c != '=')
  {
    if b == [] {
      text := "";
    } else if |b| < 3 {
      text := LastShape(alphabet, has, b);
    } else {
      var rest := EncodedShape(alphabet, has, b[3..]);
      text := BlockShape(alphabet, has, b, rest);
    }
  }

  lemma BlockShape(alphabet: string, has: char -> bool, b: Bytes, rest: string) returns (text: string)
    requires IsAlphabet(alphabet, has) && |b| > 2 && forall c <- rest :: has(c) && c != '='
    requires Encoded(alphabet, b[3..]) == rest + Repeated('=', (3 - |b[3..]| % 3) % 3)
    ensures Encoded(alphabet, b) == text + Repeated('=', (3 - |b| % 3) % 3) && (forall c <- text :: has(c) && c != '=')
  {
    var block := Chars(alphabet, Sextets(b[0], b[1], b[2]));
    CharsHave(alphabet, has, Sextets(b[0], b[1], b[2]));
    AddBlock(|b|);
    text := block + rest;
    assert text + Repeated('=', (3 - |b| % 3) % 3) == block + (rest + Repeated('=', (3 - |b| % 3) % 3));
  }

  /** Four characters for every three bytes begun. */
  lemma {:induction false} EncodedLength(alphabet: string, b: Bytes)
    requires |alphabet| == 64
    ensures |Encoded(alphabet, b)| == (|b| + 2) / 3 * 4
  {
    if |b| == 1 || |b| == 2 {
      RepeatedLength('=', 3 - |b|);
    } else if |b| > 2 {
      EncodedLength(alphabet, b[3..]);
      AddBlock(|b|);
    }
  }

  lemma {:induction false} RepeatedLength(c: char, n: nat)
    ensures |Repeated(c, n)| == n && forall d <- Repeated(c, n) :: d == c
  {
    if n > 0 {
      RepeatedLength(c, n - 1);
    }
  }

  lemma LastShape(alphabet: string, has: char -> bool, b: Bytes) returns (text: string)
    requires IsAlphabet(alphabet, has) && (|b| == 1 || |b| == 2)
    ensures Encoded(alphabet, b) == text + Repeated('=', 3 - |b|) && (forall c <- text :: has(c) && c != '=')
  {
    var q := Sextets(b[0], if |b| > 1 then b[1] else 0, 0)[..|b| + 1];
    text := Chars(alphabet, q);
    CharsHave(alphabet, has, q);
  }

  lemma AddBlock(n: nat)
    requires n >= 3
    ensures (n + 2) / 3 * 4 == 4 + (n - 3 + 2) / 3 * 4 && n % 3 == (n - 3) % 3
  {
  }

  // ---- Which texts are encodings ----

  lemma SextetsOctets(q0: bv8, q1: bv8, q2: bv8, q3: bv8)
    requires q0 < 64 && q1 < 64 && q2 < 64 && q3 < 64
    ensures var b := Octets(q0, q1, q2, q3); Sextets(b[0], b[1], b[2]) == [q0, q1, q2, q3]
  {
  }

  lemma TwoSextetsBack(q0: bv8, q1: bv8)
    requires q0 < 64 && q1 < 64 && q1 & 0xf == 0
    ensures Sextet0(Octet0(q0, q1)) == q0 && Sextet1(Octet0(q0, q1), 0) == q1
  {
  }

  lemma ThreeSextetsBack(q0: bv8, q1: bv8, q2: bv8)
    requires q0 < 64 && q1 < 64 && q2 < 64 && q2 & 0x3 == 0
    ensures Sextet0(Octet0(q0, q1)) == q0 && Sextet1(Octet0(q0, q1), Octet1(q1, q2)) == q1
    ensures Sextet2(Octet1(q1, q2), 0) == q2
  {
  }

  lemma UnusedBits(b0: bv8, b1: bv8)
    ensures Sextet1(b0, 0) & 0xf == 0 && Sextet2(b1, 0) & 0x3 == 0
  {
  }

  /** Two or three characters with padding, in which the bits that make no byte are zero. */
  predicate IsLastBlock(alphabet: string, has: char -> bool, s: string) {
    && |s| == 4
    && (Leading(has, s) == 3 ==> s[3] == '=' && Find(alphabet, s[2]) & 0x3 == 0)
    && (Leading(has, s) == 2 ==> s[2] == '=' && s[3] == '=' && Find(alphabet, s[1]) & 0xf == 0)
    && 2 <= Leading(has, s) <= 3
  }

  /** Whole blocks of the alphabet's characters, of which the last may be padded, with no bit left over. */
  predicate IsCanonical(alphabet: string, has: char -> bool, s: string) {
    s == "" || IsLastBlock(alphabet, has, s) || (Leading(has, s) >= 4 && IsCanonical(alphabet, has, s[4..]))
  }

  lemma LastIsCanonical(alphabet: string, has: char -> bool, b: Bytes)
    requires IsAlphabet(alphabet, has) && (|b| == 1 || |b| == 2)
    ensures IsLastBlock(alphabet, has, Encoded(alphabet, b))
  {
    var b1 := if |b| > 1 then b[1] else 0;
    var q := Sextets(b[0], b1, 0)[..|b| + 1];
    UnusedBits(b[0], b1);
    RepeatedLength('=', 3 - |b|);
    CharsBack(alphabet, has, q, Repeated('=', 3 - |b|));
  }

  lemma {:induction false} EncodedIsCanonical(alphabet: string, has: char -> bool, b: Bytes)
    requires IsAlphabet(alphabet, has)
    ensures IsCanonical(alphabet, has, Encoded(alphabet, b))
  {
    if |b| == 1 || |b| == 2 {
      LastIsCanonical(alphabet, has, b);
    } else if |b| > 2 {
      var q, rest := Sextets(b[0], b[1], b[2]), Encoded(alphabet, b[3..]);
      CharsBack(alphabet, has, q, rest);
      assert (Chars(alphabet, q) + rest)[4..] == rest;
      EncodedIsCanonical(alphabet, has, b[3..]);
    }
  }

  lemma CharsFound(alphabet: string, has: char -> bool, s: string, q: Bytes)
    requires IsAlphabet(alphabet, has) && |q| == |s|
    requires forall i :: 0 <= i < |s| ==> has(s[i]) && q[i] == Find(alphabet, s[i])
    ensures Small(q) && Chars(alphabet, q) == s
  {
    forall i | 0 <= i < |s| ensures q[i] < 64 && At(alphabet, q[i]) == s[i] {
      FindHas(alphabet, has, s[i]);
    }
  }

  lemma LeadingHas(has: char -> bool, s: string, i: nat)
    requires i < Leading(has, s)
    ensures i < |s| && has(s[i])
  {
    if i > 0 {
      LeadingHas(has, s[1..], i - 1);
    }
  }

  lemma TwoEncodeBack(alphabet: string, has: char -> bool, s: string, filler: bv8)
    requires IsAlphabet(alphabet, has) && IsLastBlock(alphabet, has, s) && Leading(has, s) == 2
    ensures Encoded(alphabet, Decoded(alphabet, has, s, filler)) == s
  {
    var q := [Find(alphabet, s[0]), Find(alphabet, s[1])];
    LeadingHas(has, s, 1);
    CharsFound(alphabet, has, s[..2], q);
    TwoSextetsBack(q[0], q[1]);
    assert Sextets(Octet0(q[0], q[1]), 0, 0)[..2] == q;
    assert s == s[..2] + Repeated('=', 2);
  }

  lemma ThreeEncodeBack(alphabet: string, has: char -> bool, s: string, filler: bv8)
    requires IsAlphabet(alphabet, has) && IsLastBlock(alphabet, has, s) && Leading(has, s) == 3
    ensures Encoded(alphabet, Decoded(alphabet, has, s, filler)) == s
  {
    var q := [Find(alphabet, s[0]), Find(alphabet, s[1]), Find(alphabet, s[2])];
    LeadingHas(has, s, 1);
    LeadingHas(has, s, 2);
    CharsFound(alphabet, has, s[..3], q);
    ThreeSextetsBack(q[0], q[1], q[2]);
    assert Sextets(Octet0(q[0], q[1]), Octet1(q[1], q[2]), 0)[..3] == q;
    assert s == s[..3] + Repeated('=', 1);
  }

  lemma {:induction false} CanonicalEncodesBack(alphabet: string, has: char -> bool, s: string, filler: bv8)
    requires IsAlphabet(alphabet, has) && IsCanonical(alphabet, has, s)
    ensures Encoded(alphabet, Decoded(alphabet, has, s, filler)) == s
  {
    if IsLastBlock(alphabet, has, s) {
      if Leading(has, s) == 2 {
        TwoEncodeBack(alphabet, has, s, filler);
      } else {
        ThreeEncodeBack(alphabet, has, s, filler);
      }
    } else if s != "" {
      BlockEncodesBack(alphabet, has, s, filler);
      CanonicalEncodesBack(alphabet, has, s[4..], filler);
      assert s == s[..4] + s[4..];
    }
  }

  lemma BlockEncodesBack(alphabet: string, has: char -> bool, s: string, filler: bv8)
    requires IsAlphabet(alphabet, has) && Leading(has, s) >= 4
    ensures |s| >= 4 && Encoded(alphabet, Decoded(alphabet, has, s, filler))
         == s[..4] + Encoded(alphabet, Decoded(alphabet, has, s[4..], filler))
  {
    var q := [Find(alphabet, s[0]), Find(alphabet, s[1]), Find(alphabet, s[2]), Find(alphabet, s[3])];
    LeadingHas(has, s, 1);
    LeadingHas(has, s, 2);
    LeadingHas(has, s, 3);
    CharsFound(alphabet, has, s[..4], q);
    SextetsOctets(q[0], q[1], q[2], q[3]);
    var b, rest := Octets(q[0], q[1], q[2], q[3]), Decoded(alphabet, has, s[4..], filler);
    assert (b + rest)[3..] == rest;
  }

  /** Encoding undoes decoding exactly on the encodings, which are the canonical texts. */
  lemma EncodedDecodedExactly(alphabet: string, has: char -> bool, s: string, filler: bv8)
    requires IsAlphabet(alphabet, has)
    ensures Encoded(alphabet, Decoded(alphabet, has, s, filler)) == s <==> IsCanonical(alphabet, has, s)
  {
    if IsCanonical(alphabet, has, s) {
      CanonicalEncodesBack(alphabet, has, s, filler);
    }
    EncodedIsCanonical(alphabet, has, Decoded(alphabet, has, s, filler));
  }

  // ---- The loops ----

  /** Both loops read `all` from `at` on; `rest` begins `i` elements earlier. */
  lemma Advance<T>(all: seq<T>, at: nat, rest: seq<T>, i: nat)
    requires at < |all| && i <= |rest| && rest[i..] == all[at..]
    ensures i < |rest| && rest[i] == all[at] && rest[i + 1..] == all[at + 1..]
    ensures rest[..i + 1] == rest[..i] + [all[at]]
  {
    assert rest[i] == rest[i..][0];
    assert rest[i + 1..] == rest[i..][1..];
  }

  method Encode(alphabet: string, bytes: Bytes) returns (ret: string)
    requires |alphabet| == 64
    ensures ret == Encoded(alphabet, bytes)
  {
    ret := "";
    var i, at := 0, 0;
    var three := new bv8[3](_ => 0);
    ghost var rest := bytes;
    while at < |bytes|
      invariant i < 3 && i <= |rest| && at <= |bytes| && three[..i] == rest[..i] && rest[i..] == bytes[at..]
      invariant ret + Encoded(alphabet, rest) == Encoded(alphabet, bytes)
    {
      Advance(bytes, at, rest, i);
      three[i] := bytes[at];
      i, at := i + 1, at + 1;
      if i == 3 {
        var quad := EncodeBlock(alphabet, three, 4);
        EncodedBlock(alphabet, rest, three[..], ret);
        ret := ret + quad;
        rest := rest[3..];
        i := 0;
      }
    }
    if i > 0 {
      assert rest == rest[..i] + rest[i..] == three[..i];
      var last := EncodeLast(alphabet, three, i);
      ret := ret + last;
    }
  }

  lemma EncodedBlock(alphabet: string, rest: Bytes, three: Bytes, ret: string)
    requires |alphabet| == 64 && |three| == 3 <= |rest| && three == rest[..3]
    ensures ret + Encoded(alphabet, rest)
         == ret + Chars(alphabet, Sextets(three[0], three[1], three[2])[..4]) + Encoded(alphabet, rest[3..])
  {
    var q := Sextets(three[0], three[1], three[2]);
    assert q[..4] == q;
  }

  method EncodeLast(alphabet: string, three: array<bv8>, n: nat) returns (chars: string)
    requires |alphabet| == 64 && three.Length == 3 && (n == 1 || n == 2)
    modifies three
    ensures chars == Encoded(alphabet, old(three[..n]))
  {
    for j := n to 3
      invariant three[..n] == old(three[..n]) && forall k :: n <= k < j ==> three[k] == 0
    {
      three[j] := 0;
    }
    assert three[0] == three[..n][0] && (n == 2 ==> three[1] == three[..n][1]);
    chars := EncodeBlock(alphabet, three, n + 1);
    var i := n;
    while i < 3
      invariant n <= i <= 3 && chars + Repeated('=', 3 - i) == Encoded(alphabet, old(three[..n]))
    {
      chars := chars + ['='];
      i := i + 1;
    }
  }

  /** The first `n` characters for the three bytes in the buffer. */
  method EncodeBlock(alphabet: string, three: array<bv8>, n: nat) returns (chars: string)
    requires |alphabet| == 64 && three.Length == 3 && n <= 4
    ensures chars == Chars(alphabet, Sextets(three[0], three[1], three[2])[..n])
  {
    var four := new bv8[4](_ => 0);
    Split(three, four);
    chars := LookUp(alphabet, four, n);
    assert four[..n] == four[..][..n];
  }

  method Split(three: array<bv8>, four: array<bv8>)
    requires three.Length == 3 && four.Length == 4 && three != four
    modifies four
    ensures four[..] == Sextets(three[0], three[1], three[2])
  {
    four[0] := Sextet0(three[0]);
    four[1] := Sextet1(three[0], three[1]);
    four[2] := Sextet2(three[1], three[2]);
    four[3] := Sextet3(three[2]);
  }

  method LookUp(alphabet: string, four: array<bv8>, n: nat) returns (chars: string)
    requires |alphabet| == 64 && n <= four.Length && Small(four[..])
    ensures chars == Chars(alphabet, four[..n])
  {
    chars := "";
    for j := 0 to n
      invariant chars == Chars(alphabet, four[..j])
    {
      assert four[j] == four[..][j];
      assert four[..j + 1][..j] == four[..j];
      chars := chars + [At(alphabet, four[j])];
    }
  }

  /** The first `n` of the three bytes for the four characters in the buffer. */
  method DecodeBlock(alphabet: string, c: array<char>, n: nat) returns (bytes: Bytes)
    requires c.Length == 4 && n <= 3
    ensures bytes
         == Octets(Find(alphabet, c[0]), Find(alphabet, c[1]), Find(alphabet, c[2]), Find(alphabet, c[3]))[..n]
  {
    var four := new bv8[4](_ => 0);
    for j := 0 to 4
      invariant forall k :: 0 <= k < j ==> four[k] == Find(alphabet, c[k])
    {
      four[j] := Find(alphabet, c[j]);
    }
    var three := new bv8[3](_ => 0);
    Join(four, three);
    bytes := [];
    for j := 0 to n
      invariant bytes == three[..j]
    {
      bytes := bytes + [three[j]];
    }
    assert bytes == three[..][..n];
  }

  method Join(four: array<bv8>, three: array<bv8>)
    requires three.Length == 3 && four.Length == 4 && three != four
    modifies three
    ensures three[..] == Octets(four[0], four[1], four[2], four[3])
  {
    three[0] := Octet0(four[0], four[1]);
    three[1] := Octet1(four[1], four[2]);
    three[2] := Octet2(four[2], four[3]);
  }

  /** The decoding of a text, as a value that proofs can pass along without unfolding it. */
  ghost function Decoding(alphabet: string, has: char -> bool, filler: bv8): string -> Bytes {
    s => Decoded(alphabet, has, s, filler)
  }

  lemma DecodedFour(alphabet: string, has: char -> bool, rest: string, filler: bv8)
    requires Leading(has, rest) >= 4
    ensures Decoding(alphabet, has, filler)(rest)
         == Octets(Find(alphabet, rest[0]), Find(alphabet, rest[1]), Find(alphabet, rest[2]), Find(alphabet, rest[3]))
          + Decoding(alphabet, has, filler)(rest[4..])
  {
  }

  lemma DecodedBlock(alphabet: string, has: char -> bool, rest: string, c: string, filler: bv8, ret: Bytes)
    requires Leading(has, rest) >= 4 && |c| == 4 && c == rest[..4]
    ensures ret + Decoding(alphabet, has, filler)(rest)
         == ret + Octets(Find(alphabet, c[0]), Find(alphabet, c[1]), Find(alphabet, c[2]), Find(alphabet, c[3]))[..3]
          + Decoding(alphabet, has, filler)(rest[4..])
  {
    var o := Octets(Find(alphabet, c[0]), Find(alphabet, c[1]), Find(alphabet, c[2]), Find(alphabet, c[3]));
    DecodedFour(alphabet, has, rest, filler);
    assert o[..3] == o;
  }

  lemma NothingLeading(alphabet: string, has: char -> bool, rest: string, filler: bv8)
    requires Leading(has, rest) == 0
    ensures Decoding(alphabet, has, filler)(rest) == []
  {
  }

  lemma {:induction false} LeadingAt(has: char -> bool, s: string, i: nat)
    requires i <= |s| && i <= Leading(has, s)
    ensures Leading(has, s[i..]) == Leading(has, s) - i
    ensures i < Leading(has, s) <==> i < |s| && s[i] != '=' && has(s[i])
  {
    if i > 0 {
      LeadingAt(has, s[1..], i - 1);
      assert s[1..][i - 1..] == s[i..];
    }
  }

  method Decode(alphabet: string, has: char -> bool, encoded: string) returns (ret: Bytes)
    ensures ret == Decoded(alphabet, has, encoded, Find(alphabet, '\0'))
  {
    ret := [];
    var i, at := 0, 0;
    var buffer := new char[4](_ => '\0');
    ghost var filler, rest := Find(alphabet, '\0'), encoded;
    ghost var decoding := Decoding(alphabet, has, filler);
    while at < |encoded| && encoded[at] != '=' && has(encoded[at])
      invariant i < 4 && i <= |rest| && at <= |encoded| && buffer[..i] == rest[..i] && rest[i..] == encoded[at..]
      invariant i <= Leading(has, rest)
      invariant ret + decoding(rest) == decoding(encoded)
      decreases |encoded| - at
    {
      LeadingAt(has, rest, i);
      Advance(encoded, at, rest, i);
      buffer[i] := encoded[at];
      i, at := i + 1, at + 1;
      if i == 4 {
        var block := DecodeBlock(alphabet, buffer, 3);
        DecodedBlock(alphabet, has, rest, buffer[..], filler, ret);
        ret, rest := ret + block, rest[4..];
        i := 0;
      }
    }
    LeadingAt(has, rest, i);
    assert at == |encoded| ==> rest[i..] == "";
    if i > 0 {
      assert i < |rest| ==> rest[i] == rest[i..][0];
      var last := DecodeLast(alphabet, has, buffer, i, rest);
      ret := ret + last;
    } else {
      NothingLeading(alphabet, has, rest, filler);
    }
  }

  method DecodeLast(alphabet: string, has: char -> bool, buffer: array<char>, n: nat, ghost rest: string)
    returns (bytes: Bytes)
    requires 0 < n < 4 == buffer.Length && n <= |rest| && buffer[..n] == rest[..n] && Leading(has, rest) == n
    modifies buffer
    ensures bytes == Decoding(alphabet, has, Find(alphabet, '\0'))(rest)
  {
    for j := n to 4
      invariant buffer[..n] == rest[..n] && forall k :: n <= k < j ==> buffer[k] == '\0'
    {
      buffer[j] := '\0';
    }
    assert forall k :: 0 <= k < n ==> buffer[k] == buffer[..n][k] == rest[k];
    bytes := DecodeBlock(alphabet, buffer, n - 1);
  }

  // ---- The public functions ----

  method Base64Encode(bytes: Bytes) returns (r: string)
    ensures Decoded(STANDARD, IsBase64, r, 0xFF) == bytes
    ensures r == Encoded(STANDARD, bytes)
  {
    BothAreAlphabets();
    r := Encode(STANDARD, bytes);
    DecodedEncoded(STANDARD, IsBase64, bytes, 0xFF);
  }

  method Base64UrlEncode(bytes: Bytes) returns (r: string)
    ensures Decoded(URL_SAFE, IsBase64Url, r, 0xFF) == bytes
    ensures r == Encoded(URL_SAFE, bytes)
  {
    BothAreAlphabets();
    r := Encode(URL_SAFE, bytes);
    DecodedEncoded(URL_SAFE, IsBase64Url, bytes, 0xFF);
  }

  method Base64Decode(encoded: string) returns (r: Bytes)
    ensures forall filler :: r == Decoded(STANDARD, IsBase64, encoded, filler)
    ensures |r| == Leading(IsBase64, encoded) * 3 / 4
  {
    r := Decode(STANDARD, IsBase64, encoded);
    forall filler ensures r == Decoded(STANDARD, IsBase64, encoded, filler) {
      FillerUnseen(STANDARD, IsBase64, encoded, Find(STANDARD, '\0'), filler);
    }
    DecodedLength(STANDARD, IsBase64, encoded, 0xFF);
  }

  method Base64UrlDecode(encoded: string) returns (r: Bytes)
    ensures forall filler :: r == Decoded(URL_SAFE, IsBase64Url, encoded, filler)
    ensures |r| == Leading(IsBase64Url, encoded) * 3 / 4
  {
    r := Decode(URL_SAFE, IsBase64Url, encoded);
    forall filler ensures r == Decoded(URL_SAFE, IsBase64Url, encoded, filler) {
      FillerUnseen(URL_SAFE, IsBase64Url, encoded, Find(URL_SAFE, '\0'), filler);
    }
    DecodedLength(URL_SAFE, IsBase64Url, encoded, 0xFF);
  }
}
