/** Printing a URI and parsing it back (`uri.cpp`, after RFC 3986). */
module UriParse {
  import opened Text
  import opened Percent
  import opened Radix
  import opened Uri

  datatype Parts = Parts(scheme: string, host: string, path: string, port: nat, query: string)

  /** `PastEnd`: the scanner steps over the terminating zero, where the language gives no meaning. */
  datatype Outcome = Parsed(parts: Parts) | Rejected | PastEnd

  // ---- Printing ----

  function PortText(port: nat): string {
    if port > 0 then ":" + Print(port, 10) else ""
  }

  function BuildHost(u: Parts): Option<string> {
    if u.scheme == "" || u.host == "" then None
    else Some(u.scheme + "://" + u.host + PortText(u.port))
  }

  function QueryText(query: string): string {
    (if query == "" then "" else "?") + URI.Encode(query)
  }

  /** The path and query; query variables are not part of `Parts`. */
  function BuildPath(u: Parts): string {
    u.path + QueryText(u.query)
  }

  function Build(u: Parts): Option<string> {
    match BuildHost(u)
    case None => None
    case Some(h) => Some(h + BuildPath(u))
  }

  // ---- What the scanners look for ----

  predicate IsSchemeChar(c: char) { IsAlnum(c) || c == '-' || c == '+' || c == '.' }

  predicate IsAddressChar(c: char) { IsHexDigit(c) || c == ':' || c == '.' }

  predicate IsPChar(c: char) {
    IsUnreserved(c) || c == '%' || IsHexDigit(c) || IsSubDelim(c) || c == ':' || c == '@'
  }

  predicate IsPathChar(c: char) { IsPChar(c) || c == '/' }

  /** The character under a cursor; behind the text stands a zero. */
  function At(t: string, i: nat): char {
    if i < |t| then t[i] else '\0'
  }

  /** End of the longest stretch from `from` on whose characters all satisfy `p`. */
  function Run(t: string, from: nat, p: char -> bool): (end: nat)
    requires from <= |t|
    ensures from <= end <= |t|
    decreases |t| - from
  {
    if from < |t| && p(t[from]) then Run(t, from + 1, p) else from
  }

  lemma {:induction false} RunHolds(t: string, from: nat, p: char -> bool)
    requires from <= |t|
    ensures forall k :: from <= k < Run(t, from, p) ==> p(t[k])
    ensures Run(t, from, p) < |t| ==> !p(t[Run(t, from, p)])
    decreases |t| - from
  {
    if from < |t| && p(t[from]) {
      RunHolds(t, from + 1, p);
    }
  }

  datatype Scan = Scan(ok: bool, end: nat, text: string)

  // A scanner maps a text and a cursor to what it reads there; a cursor past the text never occurs.

  function SchemeScan(t: string, i: nat): Scan {
    if i >= |t| || !IsAlpha(t[i]) then Scan(false, i, "")
    else
      var e := Run(t, i + 1, IsSchemeChar);
      Scan(At(t, e) == ':', e + 1, t[i..e])
  }

  function PathScan(t: string, i: nat): Scan {
    if i > |t| then Scan(false, i, "") else
    var e := if At(t, i) == '/' then Run(t, i + 1, IsPathChar) else i;
    Scan(At(t, e) == '\0' || At(t, e) == '?' || At(t, e) == '#', e, Decode(t[i..e]))
  }

  function QueryScan(t: string, i: nat): Scan {
    if i > |t| then Scan(false, i, "") else
    var e := Run(t, i, IsPChar);
    Scan(At(t, e) == '\0' || At(t, e) == '#', e, Decode(t[i..e]))
  }

  /** Where the host starts: behind user information, unless a path, query or fragment comes first. */
  function HostStart(t: string, i: nat): (j: nat)
    requires i <= |t|
    ensures i <= j <= |t|
  {
    var at := IndexOf(t, '@', i);
    if at < |t| && '/' !in t[i..at] && '?' !in t[i..at] && '#' !in t[i..at] then at + 1 else i
  }

  /** A bracketed address, if there is one. */
  function AddressScan(t: string, i: nat): (s: Scan)
    requires i <= |t|
    ensures i <= s.end <= |t|
  {
    if At(t, i) != '[' then Scan(true, i, "")
    else
      var future := At(t, i + 1) == 'v' && IsHexDigit(At(t, i + 2)) && At(t, i + 3) == '.';
      var e := Run(t, if future then i + 4 else i + 1, IsAddressChar);
      if At(t, e) == ']' then Scan(true, e + 1, t[i..e + 1]) else Scan(false, e, t[i..e])
  }

  datatype Authority = Authority(ok: bool, end: nat, host: string, port: nat) | AuthorityPastEnd

  lemma RunOfDigits(t: string, i: nat)
    requires i <= |t|
    ensures IsNumeral(t[i..Run(t, i, IsDigit)], 10)
  {
    RunHolds(t, i, IsDigit);
  }

  function AuthorityScan(t: string, i: nat): (a: Authority)
    ensures a.Authority? ==> i <= a.end <= |t|
  {
    if i >= |t| || (t[i] == '/' && i + 1 == |t|) then AuthorityPastEnd
    else if t[i] != '/' && At(t, i + 1) != '/' then Authority(false, i, "", 0)
    else
      AfterAddress(t, AddressScan(t, HostStart(t, i + 2)))
  }

  /** The registered name or IPv4 address, and the port, which the original keeps in sixteen bits. */
  function AfterAddress(t: string, address: Scan): (a: Authority)
    requires address.end <= |t|
    ensures a.Authority? && address.end <= a.end <= |t|
  {
    if !address.ok then Authority(false, address.end, address.text, 0)
    else
      var e := Run(t, address.end, IsUnreserved);
      var host := address.text + t[address.end..e];
      if At(t, e) != ':' then Authority(true, e, host, 0)
      else
        var f := Run(t, e + 1, IsDigit);
        RunOfDigits(t, e + 1);
        Authority(true, f, host, Value(t[e + 1..f], 10) % 65536)
  }

  /** The four scanners one behind the other; the query only behind a question mark. */
  function Sequence(scheme: (string, nat) -> Scan, authority: (string, nat) -> Authority,
                    path: (string, nat) -> Scan, query: (string, nat) -> Scan, t: string): Outcome
  {
    var s := scheme(t, 0);
    if s.end > |t| then PastEnd
    else
      match authority(t, s.end)
      case AuthorityPastEnd => PastEnd
      case Authority(ok, i, host, port) =>
        var p := path(t, i);
        var q := if At(t, p.end) == '?' then query(t, p.end + 1) else Scan(true, p.end, "");
        if s.ok && ok && p.ok && q.ok then Parsed(Parts(s.text, host, p.text, port, q.text)) else Rejected
  }

  /** What a C string shows of a `std::string`. */
  function CStr(s: string): string {
    s[..IndexOf(s, '\0', 0)]
  }

  function FromStr(uri: string): Outcome {
    Sequence(SchemeScan, AuthorityScan, PathScan, QueryScan, CStr(uri))
  }

  // ---- The scanners, cursor by cursor ----

  method ParseScheme(t: string) returns (ok: bool, str: nat, out: string)
    ensures Scan(ok, str, out) == SchemeScan(t, 0)
  {
    str, out := 0, "";
    if !IsAlpha(At(t, str)) {
      return false, str, out;
    }
    out := out + [t[str]];
    str := str + 1;
    while IsAlnum(At(t, str)) || At(t, str) == '-' || At(t, str) == '+' || At(t, str) == '.'
      invariant 1 <= str <= |t| && out == t[..str]
      invariant Run(t, str, IsSchemeChar) == Run(t, 1, IsSchemeChar)
      decreases |t| - str
    {
      out := out + [t[str]];
      str := str + 1;
    }
    ok := At(t, str) == ':';
    str := str + 1;
  }

  method ParsePath(t: string, from: nat) returns (ok: bool, str: nat, path: string)
    requires from <= |t|
    ensures Scan(ok, str, path) == PathScan(t, from)
  {
    str, path := from, "";
    if At(t, str) == '/' {
      path := path + [t[str]];
      str := str + 1;
      ghost var e := Run(t, str, IsPathChar);
      assert t[from..e] == ['/'] + t[str..e];
      ghost var goal := Decode(t[from..e]);
      while IsPChar(At(t, str)) || At(t, str) == '/'
        invariant from < str <= e && e == Run(t, str, IsPathChar)
        invariant path + Decode(t[str..e]) == goal
        decreases |t| - str
      {
        assert !IsPathChar('\0');
        assert str < |t|;
        RunMoves(t, str, IsPathChar);
        str, path := ParseCharacter(t, str, path, e, IsPathChar);
      }
    }
    ok := At(t, str) == '\0' || At(t, str) == '?' || At(t, str) == '#';
  }

  method ParseQuery(t: string, from: nat) returns (ok: bool, str: nat, query: string)
    requires from <= |t|
    ensures Scan(ok, str, query) == QueryScan(t, from)
  {
    str, query := from, "";
    ghost var e := Run(t, str, IsPChar);
    ghost var goal := Decode(t[from..e]);
    while IsPChar(At(t, str))
      invariant from <= str <= e && e == Run(t, str, IsPChar)
      invariant query + Decode(t[str..e]) == goal
      decreases |t| - str
    {
      assert !IsPChar('\0');
      assert str < |t|;
      RunMoves(t, str, IsPChar);
      str, query := ParseCharacter(t, str, query, e, IsPChar);
    }
    ok := At(t, str) == '\0' || At(t, str) == '#';
  }

  lemma DecodeStep(t: string, i: nat, e: nat)
    requires i < e <= |t|
    ensures t[i] != '%' ==> Decode(t[i..e]) == [t[i]] + Decode(t[i + 1..e])
    ensures t[i] == '%' && i + 3 <= e && IsHexDigit(t[i + 1]) && IsHexDigit(t[i + 2]) ==>
      Decode(t[i..e]) == [(HexValue(t[i + 1]) * 16 + HexValue(t[i + 2])) as char] + Decode(t[i + 3..e])
    ensures t[i] == '%' && !(i + 3 <= e && IsHexDigit(t[i + 1]) && IsHexDigit(t[i + 2])) ==>
      Decode(t[i..e]) == Decode(t[i + 1..e])
  {
    assert t[i..e][1..] == t[i + 1..e];
    assert i + 3 <= e ==> t[i..e][3..] == t[i + 3..e];
  }

  lemma RunStep(t: string, i: nat, j: nat, p: char -> bool)
    requires i <= |t| && i <= j <= Run(t, i, p)
    ensures Run(t, j, p) == Run(t, i, p)
  {
    RunHolds(t, i, p);
    assert forall k :: j <= k < Run(t, i, p) ==> p(t[k]);
    RunUnique(t, j, Run(t, i, p), p);
  }

  lemma {:induction false} RunUnique(t: string, from: nat, end: nat, p: char -> bool)
    requires from <= end <= |t|
    requires forall k :: from <= k < end ==> p(t[k])
    requires end < |t| ==> !p(t[end])
    ensures Run(t, from, p) == end
    decreases end - from
  {
    if from < end {
      RunUnique(t, from + 1, end, p);
    }
  }

  lemma RunMoves(t: string, i: nat, p: char -> bool)
    requires i < |t| && p(t[i])
    ensures i < Run(t, i, p)
  {
  }

  /** One character of a path or query, `decodePctEncoded` included. */
  method ParseCharacter(t: string, from: nat, before: string, ghost e: nat, ghost p: char -> bool)
    returns (str: nat, out: string)
    requires from <= |t| && from < e == Run(t, from, p)
    requires forall c :: IsHexDigit(c) ==> p(c)
    ensures from < str <= e && e == Run(t, str, p)
    ensures out + Decode(t[str..e]) == before + Decode(t[from..e])
  {
    str, out := from, before;
    DecodeStep(t, from, e);
    RunHolds(t, from, p);
    if t[str] == '%' {
      if IsHexDigit(At(t, str + 1)) && IsHexDigit(At(t, str + 2)) {
        assert p(t[from + 1]) && p(t[from + 2]);
        out := out + [(HexValue(t[str + 1]) * 16 + HexValue(t[str + 2])) as char];
        str := str + 3;
      } else {
        str := str + 1;
      }
    } else {
      out := out + [t[str]];
      str := str + 1;
    }
    RunStep(t, from, str, p);
  }

  /** A stretch of characters copied to the output. */
  method CopyRun(t: string, from: nat, before: string, p: char -> bool) returns (str: nat, out: string)
    requires from <= |t| && !p('\0')
    ensures str == Run(t, from, p) && out == before + t[from..str]
  {
    str, out := from, before;
    while p(At(t, str))
      invariant from <= str <= |t| && out == before + t[from..str]
      invariant Run(t, str, p) == Run(t, from, p)
      decreases |t| - str
    {
      out := out + [t[str]];
      str := str + 1;
    }
  }

  method ParsePort(t: string, from: nat) returns (str: nat, port: nat)
    requires from <= |t|
    ensures str == Run(t, from, IsDigit)
    ensures IsNumeral(t[from..str], 10) && port == Value(t[from..str], 10) % 65536
  {
    str, port := from, 0;
    while IsDigit(At(t, str))
      invariant from <= str <= |t| && Run(t, str, IsDigit) == Run(t, from, IsDigit)
      invariant IsNumeral(t[from..str], 10) && port == Value(t[from..str], 10) % 65536
      decreases |t| - str
    {
      PortDigit(t, from, str);
      port := (port * 10 + (t[str] as int - '0' as int)) % 65536;
      str := str + 1;
    }
  }

  lemma PortStep(v: nat, d: nat)
    ensures (v % 65536 * 10 + d) % 65536 == (v * 10 + d) % 65536
  {
    var q, r := v / 65536, v % 65536;
    assert v * 10 + d == q * 10 * 65536 + (r * 10 + d);
  }

  lemma PortDigit(t: string, from: nat, i: nat)
    requires from <= i < |t| && IsNumeral(t[from..i], 10) && IsDigit(t[i])
    ensures IsNumeral(t[from..i + 1], 10)
    ensures Value(t[from..i + 1], 10) % 65536
         == (Value(t[from..i], 10) % 65536 * 10 + (t[i] as int - '0' as int)) % 65536
  {
    var digits := t[from..i];
    assert t[from..i + 1] == digits + [t[i]];
    ValueAppend(digits, t[i], 10);
    PortStep(Value(digits, 10), HexValue(t[i]));
  }

  method ParseUserInfo(t: string, from: nat) returns (str: nat)
    requires from <= |t|
    ensures str == HostStart(t, from)
  {
    str := from;
    var userEnd := IndexOf(t, '@', str);
    if userEnd < |t| {
      var slash, question, hash := IndexOf(t, '/', str), IndexOf(t, '?', str), IndexOf(t, '#', str);
      BeforeMeansInside(t, '/', from, userEnd);
      BeforeMeansInside(t, '?', from, userEnd);
      BeforeMeansInside(t, '#', from, userEnd);
      if !(slash < userEnd) && !(question < userEnd) && !(hash < userEnd) {
        str := userEnd + 1;
      }
    }
  }

  lemma BeforeMeansInside(t: string, c: char, from: nat, end: nat)
    requires from <= end <= |t|
    ensures IndexOf(t, c, from) < end <==> c in t[from..end]
  {
    var i := IndexOf(t, c, from);
    IndexOfFirst(t, c, from);
    if i < end {
      assert t[from..end][i - from] == c;
    } else {
      assert t[from..end] == t[from..i][..end - from];
    }
  }

  lemma JoinSlices(t: string, i: nat, j: nat, k: nat)
    requires i <= j <= k <= |t|
    ensures t[i..j] + t[j..k] == t[i..k]
  {
  }

  method ParseAddress(t: string, from: nat) returns (ok: bool, str: nat, host: string)
    requires from <= |t|
    ensures Scan(ok, str, host) == AddressScan(t, from)
  {
    ok, str, host := true, from, "";
    if At(t, str) == '[' {
      host := host + ['['];
      str := str + 1;
      assert host == t[from..str];
      if At(t, str) == 'v' && IsHexDigit(At(t, str + 1)) && At(t, str + 2) == '.' {
        host := host + t[str..str + 3];
        JoinSlices(t, from, str, str + 3);
        str := str + 3;
      }
      ghost var prefixEnd := str;
      str, host := CopyRun(t, str, host, IsAddressChar);
      JoinSlices(t, from, prefixEnd, str);
      if At(t, str) != ']' {
        return false, str, host;
      }
      JoinSlices(t, from, str, str + 1);
      assert t[str..str + 1] == [']'];
      host := host + [']'];
      str := str + 1;
    }
  }

  method ParseNameAndPort(t: string, address: Scan) returns (a: Authority)
    requires address.ok && address.end <= |t|
    ensures a == AfterAddress(t, address)
  {
    var end, host := CopyRun(t, address.end, address.text, IsUnreserved);
    if At(t, end) != ':' {
      return Authority(true, end, host, 0);
    }
    var afterPort, port := ParsePort(t, end + 1);
    a := Authority(true, afterPort, host, port);
  }

  /** `a.AuthorityPastEnd?` when the scanner would leave the text. */
  method ParseAuthority(t: string, from: nat) returns (a: Authority)
    requires from <= |t|
    ensures a == AuthorityScan(t, from)
  {
    if from == |t| || (t[from] == '/' && from + 1 == |t|) {
      return AuthorityPastEnd;
    }
    if t[from] != '/' && At(t, from + 1) != '/' {
      return Authority(false, from, "", 0);
    }
    var str := ParseUserInfo(t, from + 2);
    var ok, afterAddress, host := ParseAddress(t, str);
    if !ok {
      return Authority(false, afterAddress, host, 0);
    }
    a := ParseNameAndPort(t, Scan(ok, afterAddress, host));
  }

  /** `fromStrRfc3986`; `Rejected` stands for the `URIError` it throws. */
  method FromStrRfc3986(uri: string) returns (r: Outcome)
    ensures r == FromStr(uri)
  {
    var t := CStr(uri);
    var schemeOk, c, scheme := ParseScheme(t);
    if c > |t| {
      return PastEnd;
    }
    var authority := ParseAuthority(t, c);
    if authority.AuthorityPastEnd? {
      return PastEnd;
    }
    var pathOk, afterPath, path := ParsePath(t, authority.end);
    var queryOk, query := true, "";
    if At(t, afterPath) == '?' {
      var afterQuery;
      queryOk, afterQuery, query := ParseQuery(t, afterPath + 1);
    }
    if schemeOk && authority.ok && pathOk && queryOk {
      r := Parsed(Parts(scheme, authority.host, path, authority.port, query));
    } else {
      r := Rejected;
    }
  }

  ghost predicate All(s: string, p: char -> bool) {
    forall c <- s :: p(c)
  }

  ghost predicate IsScheme(s: string) {
    s != "" && IsAlpha(s[0]) && All(s, IsSchemeChar)
  }

  // ---- Reading behind the end ----

  /** Nothing, or a scheme alone, or one with a single other character behind it, a colon or not. */
  ghost predicate OnlyScheme(t: string) {
    || t == "" || IsScheme(t)
    || (|t| >= 2 && IsScheme(t[..|t| - 1]) && !IsSchemeChar(t[|t| - 1]))
  }

  /** What is left after the scheme is too short for the two slashes of an authority. */
  ghost predicate EndsEarly(t: string) {
    OnlyScheme(t) || (t != "" && t[|t| - 1] == '/' && OnlyScheme(t[..|t| - 1]))
  }

  lemma RunIsScheme(t: string, n: nat)
    requires 0 < n <= |t| && IsAlpha(t[0])
    ensures n <= Run(t, 1, IsSchemeChar) <==> IsScheme(t[..n])
  {
    var p := t[..n];
    RunHolds(t, 1, IsSchemeChar);
    if n <= Run(t, 1, IsSchemeChar) {
      assert forall c <- p :: exists k :: 0 <= k < n && t[k] == c;
    } else {
      assert p[Run(t, 1, IsSchemeChar)] in p;
    }
  }

  lemma SchemeEndsText(t: string)
    ensures SchemeScan(t, 0).end >= |t| <==> OnlyScheme(t)
  {
    if t != "" && IsAlpha(t[0]) {
      var n := |t|;
      assert t[..n] == t;
      RunIsScheme(t, n);
      RunHolds(t, 1, IsSchemeChar);
      if n >= 2 {
        RunIsScheme(t, n - 1);
      }
    }
  }

  lemma SchemeBeforeSlash(t: string)
    requires t != "" && t[|t| - 1] == '/'
    ensures SchemeScan(t[..|t| - 1], 0).end == SchemeScan(t, 0).end
  {
    var n := |t| - 1;
    if n > 0 && IsAlpha(t[0]) {
      var e := Run(t, 1, IsSchemeChar);
      RunHolds(t, 1, IsSchemeChar);
      assert !IsSchemeChar('/');
      RunUnique(t[..n], 1, e, IsSchemeChar);
    }
  }

  /**
   * When the parser steps over the end of its text: exactly when the URI, up to its first zero, is
   * nothing but a scheme with at most one other character and one slash behind it.
   */
  lemma PastEndExactly(uri: string)
    ensures FromStr(uri) == PastEnd <==> EndsEarly(CStr(uri))
  {
    var t := CStr(uri);
    SchemeEndsText(t);
    if t != "" && t[|t| - 1] == '/' {
      SchemeEndsText(t[..|t| - 1]);
      SchemeBeforeSlash(t);
    }
  }

  /** Such as this one. */
  lemma SchemeAloneEndsEarly()
    ensures FromStr("http:") == PastEnd
  {
    var t := "http:";
    CStrWhole(t);
    assert IsScheme(t[..4]) && t[..|t| - 1] == t[..4];
    PastEndExactly(t);
  }

  // ---- What the parser accepts ----

  /** The pieces of a URI as they stand in its text, with their separators. */
  datatype Pieces = Pieces(scheme: string, slashes: string, user: string, literal: string, name: string, port: string,
                           path: string, query: string, fragment: string)

  function TextOf(p: Pieces): string {
    p.scheme + (":" + (p.slashes + (p.user + (p.literal + (p.name + (p.port + (p.path + (p.query + p.fragment))))))))
  }

  ghost predicate AllPlain(s: string, marks: string) {
    forall c <- s :: IsPlain(c, marks)
  }

  /** Up to the first at sign, with no path, query or fragment begun before it. */
  ghost predicate IsUser(s: string) {
    s == "" || (s[|s| - 1] == '@' && forall k :: 0 <= k < |s| - 1 ==>
                    s[k] != '@' && s[k] != '/' && s[k] != '?' && s[k] != '#')
  }

  /** The prefix of a future address, if there is one. */
  predicate IsVersion(s: string) {
    s == "" || (|s| == 3 && s[0] == 'v' && IsHexDigit(s[1]) && s[2] == '.')
  }

  ghost predicate IsBracketed(s: string, version: string, address: string) {
    && s == "[" + version + address + "]" && IsVersion(version)
    && forall c <- address :: '0' <= c <= '9' || 'a' <= c <= 'f' || 'A' <= c <= 'F' || c == ':' || c == '.'
  }

  /** An address in brackets. */
  ghost predicate IsLiteral(s: string) {
    exists version, address :: IsBracketed(s, version, address)
  }

  ghost predicate IsPort(s: string) {
    s == "" || (s[0] == ':' && forall c <- s[1..] :: '0' <= c <= '9')
  }

  /** What the parser takes each piece to be made of. Any two characters with a slash among them do as slashes. */
  ghost predicate WellFormed(p: Pieces) {
    && p.scheme != "" && IsAlpha(p.scheme[0]) && AllPlain(p.scheme, "-+.")
    && |p.slashes| == 2 && (p.slashes[0] == '/' || p.slashes[1] == '/')
    && IsUser(p.user)
    && (p.literal == "" || IsLiteral(p.literal))
    && AllPlain(p.name, "-._~")
    && IsPort(p.port)
    && (p.path == "" || (p.path[0] == '/' && AllPlain(p.path, "-._~!$&'()*+,;=:@%/")))
    && (p.query == "" || (p.query[0] == '?' && AllPlain(p.query[1..], "-._~!$&'()*+,;=:@%")))
    && (p.fragment == "" || p.fragment[0] == '#')
  }

  lemma PortIsNumeral(s: string)
    requires IsPort(s) && s != ""
    ensures IsNumeral(s[1..], 10) && All(s[1..], IsDigit)
  {
  }

  ghost function PortOf(s: string): nat
    requires IsPort(s)
  {
    if s == "" then 0 else PortIsNumeral(s); Value(s[1..], 10) % 65536
  }

  /** What the pieces say: host, path and query decoded, the port in sixteen bits. */
  ghost function Said(p: Pieces): Parts
    requires WellFormed(p)
  {
    Parts(p.scheme, p.literal + p.name, Decode(p.path), PortOf(p.port), if p.query == "" then "" else Decode(p.query[1..]))
  }

  ghost predicate Spells(p: Pieces, t: string, u: Parts) {
    WellFormed(p) && TextOf(p) == t && Said(p) == u
  }

  // The same with the predicates the scanners use.

  ghost predicate IsPath(s: string) {
    s == "" || (s[0] == '/' && All(s, IsPathChar))
  }

  ghost predicate IsQuery(s: string) {
    s == "" || (s[0] == '?' && All(s[1..], IsPChar))
  }

  ghost predicate IsFragment(s: string) {
    s == "" || s[0] == '#'
  }

  ghost predicate AreSlashes(s: string) {
    |s| == 2 && (s[0] == '/' || s[1] == '/')
  }

  ghost predicate IsHost(literal: string, name: string) {
    (literal == "" || IsLiteral(literal)) && All(name, IsUnreserved)
  }

  ghost predicate Formed(p: Pieces) {
    && IsScheme(p.scheme) && AreSlashes(p.slashes) && IsUser(p.user) && IsHost(p.literal, p.name) && IsPort(p.port)
    && IsPath(p.path) && IsQuery(p.query) && IsFragment(p.fragment)
  }

  lemma SchemeChars(s: string)
    ensures All(s, IsSchemeChar) <==> AllPlain(s, "-+.")
  {
    forall c ensures IsSchemeChar(c) <==> IsPlain(c, "-+.") {
    }
  }

  lemma NameChars(s: string)
    ensures All(s, IsUnreserved) <==> AllPlain(s, "-._~")
  {
    forall c ensures IsUnreserved(c) <==> IsPlain(c, "-._~") {
    }
  }

  lemma QueryChars(s: string)
    ensures All(s, IsPChar) <==> AllPlain(s, "-._~!$&'()*+,;=:@%")
  {
    forall c ensures IsPChar(c) <==> IsPlain(c, "-._~!$&'()*+,;=:@%") {
    }
  }

  lemma PathChars(s: string)
    ensures All(s, IsPathChar) <==> AllPlain(s, "-._~!$&'()*+,;=:@%/")
  {
    forall c ensures IsPathChar(c) <==> IsPlain(c, "-._~!$&'()*+,;=:@%/") {
    }
  }

  lemma FormedIsWellFormed(p: Pieces)
    ensures Formed(p) <==> WellFormed(p)
  {
    SchemeChars(p.scheme);
    NameChars(p.name);
    PathChars(p.path);
    if p.query != "" {
      QueryChars(p.query[1..]);
    }
  }

  // ---- From the pieces to the text ----

  /**
   * What a scanner gives. The scanner is an argument, so that the proofs below can pass such facts
   * along without looking into the scanners again.
   */
  ghost predicate Gives<R(!new)>(scan: (string, nat) -> R, t: string, i: nat, r: R) {
    scan(t, i) == r
  }

  lemma Peel(t: string, i: nat, c: char, rest: string)
    requires i <= |t| && t[i..] == [c] + rest
    ensures i < |t| && t[i] == c && t[i + 1..] == rest
  {
    assert t[i..][0] == c && t[i..][1..] == rest;
  }

  lemma SplitRest(t: string, i: nat, a: string, b: string)
    requires i <= |t| && t[i..] == a + b
    ensures i + |a| <= |t| && t[i..i + |a|] == a && t[i + |a|..] == b
  {
    assert t[i..][..|a|] == a && t[i..][|a|..] == b;
  }

  /** A stretch of `p`-characters in front of a character that is none. */
  lemma RunOver(t: string, from: nat, run: string, rest: string, p: char -> bool)
    requires from <= |t| && t[from..] == run + rest
    requires All(run, p) && (rest == "" || !p(rest[0]))
    ensures from + |run| <= |t| && Run(t, from, p) == from + |run|
    ensures t[from..from + |run|] == run && t[from + |run|..] == rest
  {
    var end := from + |run|;
    SplitRest(t, from, run, rest);
    forall k | from <= k < end ensures p(t[k]) {
      assert t[k] == t[from..end][k - from];
    }
    assert end < |t| ==> t[end] == t[end..][0];
    RunUnique(t, from, end, p);
  }

  /** The character under the cursor, when the rest of the text is known. */
  lemma AtFront(t: string, i: nat, rest: string)
    requires i <= |t| && t[i..] == rest
    ensures At(t, i) == if rest == "" then '\0' else rest[0]
  {
    assert rest != "" ==> t[i] == t[i..][0];
  }

  lemma SchemePrinted(t: string, scheme: string, rest: string)
    requires IsScheme(scheme) && t == scheme + (":" + rest)
    ensures Gives(SchemeScan, t, 0, Scan(true, |scheme| + 1, scheme))
    ensures |scheme| + 1 <= |t| && t[|scheme| + 1..] == rest
  {
    var tail := scheme[1..];
    assert t[1..] == tail + (":" + rest);
    RunOver(t, 1, tail, ":" + rest, IsSchemeChar);
    Peel(t, |scheme|, ':', rest);
    assert t[0..|scheme|] == scheme;
  }

  /** What may follow host and port. */
  predicate IsTail(tail: string) {
    tail == "" || tail[0] == '/' || tail[0] == '?' || tail[0] == '#'
  }

  lemma UserSkipped(t: string, j: nat, user: string, rest: string)
    requires IsUser(user) && user != "" && j <= |t| && t[j..] == user + rest
    ensures HostStart(t, j) == j + |user|
  {
    var at := j + |user| - 1;
    SplitRest(t, j, user, rest);
    var front := user[..|user| - 1];
    assert t[j..at] == front by {
      assert t[j..at + 1] == user;
      assert t[j..at] == t[j..at + 1][..|user| - 1];
    }
    assert t[at] == t[j..at + 1][|user| - 1];
    forall k | j <= k < at ensures t[k] != '@' {
      assert t[k] == front[k - j];
    }
    IndexOfUnique(t, '@', j, at);
  }

  lemma NoUser(t: string, j: nat, host: string, tail: string)
    requires '@' !in host && IsTail(tail) && j <= |t| && t[j..] == host + tail
    ensures HostStart(t, j) == j
  {
    SplitRest(t, j, host, tail);
    var n := j + |host|;
    AtFront(t, n, tail);
    forall k | j <= k < n ensures t[k] != '@' {
      assert t[k] == t[j..n][k - j];
    }
    NoAtBefore(t, j, n);
  }

  lemma NoAtBefore(t: string, j: nat, n: nat)
    requires j <= n <= |t| && forall k :: j <= k < n ==> t[k] != '@'
    requires n < |t| ==> t[n] == '/' || t[n] == '?' || t[n] == '#'
    ensures HostStart(t, j) == j
  {
    var at := IndexOf(t, '@', j);
    if at < |t| {
      assert t[j..at][n - j] == t[n];
    }
  }

  lemma UserPrinted(t: string, j: nat, user: string, host: string, tail: string, rest: string)
    requires IsUser(user) && '@' !in host && IsTail(tail) && rest == host + tail && j <= |t| && t[j..] == user + rest
    ensures HostStart(t, j) == j + |user| <= |t| && t[j + |user|..] == rest
  {
    SplitRest(t, j, user, rest);
    if user != "" {
      UserSkipped(t, j, user, rest);
    } else {
      NoUser(t, j, host, tail);
    }
  }

  /** A bracketed address of these pieces stands at `i`, up to `e`. */
  ghost predicate Bracketed(t: string, i: nat, e: nat, k: nat) {
    && i < k <= e < |t| && t[i] == '[' && t[e] == ']' && e == Run(t, k, IsAddressChar)
    && k == if At(t, i + 1) == 'v' && IsHexDigit(At(t, i + 2)) && At(t, i + 3) == '.' then i + 4 else i + 1
  }

  lemma BracketedPrinted(t: string, i: nat, literal: string, version: string, address: string, rest: string)
    requires IsBracketed(literal, version, address) && i <= |t| && t[i..] == literal + rest
    ensures Bracketed(t, i, i + |literal| - 1, i + 1 + |version|)
  {
    var k, close := i + 1 + |version|, "]" + rest;
    var more := address + close;
    Regroup("[", version, address, "]", rest);
    Peel(t, i, '[', version + more);
    SplitRest(t, i + 1, version, more);
    assert address != "" ==> address[0] in address;
    VersionPrinted(t, i + 1, version, more);
    RunOver(t, k, address, close, IsAddressChar);
    Peel(t, k + |address|, ']', rest);
  }

  lemma Regroup(a: string, b: string, c: string, d: string, e: string)
    ensures (a + b + c + d) + e == a + (b + (c + (d + e)))
  {
  }

  lemma VersionPrinted(t: string, i: nat, version: string, more: string)
    requires IsVersion(version) && more != "" && more[0] != 'v'
    requires i + |version| <= |t| && t[i..i + |version|] == version && t[i + |version|..] == more
    ensures version != "" <==> At(t, i) == 'v' && IsHexDigit(At(t, i + 1)) && At(t, i + 2) == '.'
    ensures version == "" || |version| == 3
  {
    if version == "" {
      AtFront(t, i, more);
    } else {
      var v := t[i..i + 3];
      assert t[i] == v[0] && t[i + 1] == v[1] && t[i + 2] == v[2];
    }
  }

  lemma BracketedGiven(t: string, i: nat, e: nat, k: nat)
    requires Bracketed(t, i, e, k)
    ensures AddressScan(t, i) == Scan(true, e + 1, t[i..e + 1])
  {
  }

  lemma LiteralPrinted(t: string, i: nat, literal: string, rest: string)
    requires literal == "" || IsLiteral(literal)
    requires rest == "" || rest[0] != '['
    requires i <= |t| && t[i..] == literal + rest
    ensures i + |literal| <= |t| && t[i + |literal|..] == rest
    ensures AddressScan(t, i) == Scan(true, i + |literal|, literal)
  {
    SplitRest(t, i, literal, rest);
    if literal == "" {
      AtFront(t, i, rest);
    } else {
      var version, address :| IsBracketed(literal, version, address);
      BracketedPrinted(t, i, literal, version, address, rest);
      BracketedGiven(t, i, i + |literal| - 1, i + 1 + |version|);
    }
  }

  /** The port is written between `e` and `f`. */
  ghost predicate PortIs(t: string, e: nat, f: nat, port: nat) {
    && e <= f <= |t|
    && (if At(t, e) != ':' then f == e && port == 0
        else e < f && f == Run(t, e + 1, IsDigit) && IsNumeral(t[e + 1..f], 10) && port == Value(t[e + 1..f], 10) % 65536)
  }

  lemma PortPrinted(t: string, e: nat, port: string, tail: string)
    requires IsPort(port) && IsTail(tail) && e <= |t| && t[e..] == port + tail
    ensures e + |port| <= |t| && t[e + |port|..] == tail && PortIs(t, e, e + |port|, PortOf(port))
  {
    SplitRest(t, e, port, tail);
    if port == "" {
      AtFront(t, e, tail);
    } else {
      PortIsNumeral(port);
      assert port + tail == ":" + (port[1..] + tail);
      Peel(t, e, ':', port[1..] + tail);
      RunOver(t, e + 1, port[1..], tail, IsDigit);
    }
  }

  lemma NameAndPort(t: string, l: nat, e: nat, f: nat, literal: string, port: nat)
    requires l <= e <= |t| && e == Run(t, l, IsUnreserved) && PortIs(t, e, f, port)
    ensures AfterAddress(t, Scan(true, l, literal)) == Authority(true, f, literal + t[l..e], port)
  {
    if At(t, e) == ':' {
      RunOfDigits(t, e + 1);
    }
  }

  lemma NameAndPortPrinted(t: string, l: nat, literal: string, name: string, port: string, tail: string, rest: string)
    requires All(name, IsUnreserved) && IsPort(port) && IsTail(tail) && rest == port + tail
    requires l <= |t| && t[l..] == name + rest
    ensures l + |name| + |port| <= |t| && t[l + |name| + |port|..] == tail
    ensures AfterAddress(t, Scan(true, l, literal)) == Authority(true, l + |name| + |port|, literal + name, PortOf(port))
  {
    var e := l + |name|;
    assert rest == "" || !IsUnreserved(rest[0]);
    RunOver(t, l, name, rest, IsUnreserved);
    PortPrinted(t, e, port, tail);
    NameAndPort(t, l, e, e + |port|, literal, PortOf(port));
  }

  lemma LiteralHasNoAt(literal: string)
    requires IsLiteral(literal)
    ensures '@' !in literal
  {
    var version, address :| IsBracketed(literal, version, address);
  }

  lemma HostHasNoAt(literal: string, name: string, port: string)
    requires IsHost(literal, name) && IsPort(port)
    ensures '@' !in literal + (name + port)
  {
    if literal != "" {
      LiteralHasNoAt(literal);
    }
    assert port != "" ==> port == [port[0]] + port[1..];
  }

  lemma NoBracket(name: string, port: string, tail: string)
    requires All(name, IsUnreserved) && IsPort(port) && IsTail(tail)
    ensures var rest := name + (port + tail); rest == "" || rest[0] != '['
  {
    if name != "" {
      assert name[0] in name;
    }
  }

  /** The part of the authority behind user information. */
  ghost function HostScan(t: string, h: nat): Authority {
    if h <= |t| then AfterAddress(t, AddressScan(t, h)) else AuthorityPastEnd
  }

  /** From `i` on, the scanner reads this host and port, and leaves `tail`. */
  ghost predicate HostLeads(scan: (string, nat) -> Authority, t: string, i: nat, f: nat, tail: string, host: string,
                            port: nat) {
    i <= f <= |t| && t[f..] == tail && Gives(scan, t, i, Authority(true, f, host, port))
  }

  /** Well-formed pieces with this host and port. */
  ghost predicate Names(p: Pieces, host: string, port: nat) {
    Formed(p) && host == p.literal + p.name && port == PortOf(p.port)
  }

  /** The same, with the predicate passed along so that proofs need not unfold it. */
  ghost predicate Meant(names: (Pieces, string, nat) -> bool, p: Pieces, host: string, port: nat) {
    names(p, host, port)
  }

  ghost function LiteralScan(t: string, h: nat): Scan {
    if h <= |t| then AddressScan(t, h) else Scan(false, h, "")
  }

  ghost function NameScan(literal: string): (string, nat) -> Authority {
    (t: string, l: nat) => if l <= |t| then AfterAddress(t, Scan(true, l, literal)) else AuthorityPastEnd
  }

  lemma LiteralFollows(t: string, h: nat, p: Pieces, host: string, port: nat, tail: string)
    requires Meant(Names, p, host, port) && IsTail(tail)
    requires h <= |t| && t[h..] == p.literal + (p.name + (p.port + tail))
    ensures h + |p.literal| <= |t| && t[h + |p.literal|..] == p.name + (p.port + tail)
    ensures Gives(LiteralScan, t, h, Scan(true, h + |p.literal|, p.literal))
  {
    assert Names(p, host, port);
    NoBracket(p.name, p.port, tail);
    LiteralPrinted(t, h, p.literal, p.name + (p.port + tail));
  }

  lemma NameFollows(t: string, l: nat, p: Pieces, host: string, port: nat, tail: string)
    requires Meant(Names, p, host, port) && IsTail(tail) && l <= |t| && t[l..] == p.name + (p.port + tail)
    ensures HostLeads(NameScan(p.literal), t, l, l + |p.name| + |p.port|, tail, host, port)
  {
    assert Names(p, host, port);
    NameAndPortPrinted(t, l, p.literal, p.name, p.port, tail, p.port + tail);
  }

  lemma HostGiven(t: string, h: nat, l: nat, f: nat, literal: string, tail: string, host: string, port: nat)
    requires h <= l <= |t| && Gives(LiteralScan, t, h, Scan(true, l, literal))
    requires HostLeads(NameScan(literal), t, l, f, tail, host, port)
    ensures HostLeads(HostScan, t, h, f, tail, host, port)
  {
  }

  lemma HostPrinted(t: string, h: nat, p: Pieces, host: string, port: nat, tail: string)
    requires Meant(Names, p, host, port) && IsTail(tail)
    requires h <= |t| && t[h..] == p.literal + (p.name + (p.port + tail))
    ensures HostLeads(HostScan, t, h, h + |p.literal| + |p.name| + |p.port|, tail, host, port)
  {
    var l := h + |p.literal|;
    LiteralFollows(t, h, p, host, port, tail);
    NameFollows(t, l, p, host, port, tail);
    HostGiven(t, h, l, l + |p.name| + |p.port|, p.literal, tail, host, port);
  }

  lemma AuthorityAt(t: string, i: nat)
    requires i + 2 <= |t| && (t[i] == '/' || t[i + 1] == '/')
    ensures AuthorityScan(t, i) == AfterAddress(t, AddressScan(t, HostStart(t, i + 2)))
  {
  }

  ghost function HostBegin(t: string, i: nat): nat {
    if i <= |t| then HostStart(t, i) else i
  }

  /** Two slashes, and the host begins at `h`. */
  ghost predicate HostAt(begin: (string, nat) -> nat, t: string, i: nat, h: nat, rest: string) {
    i + 2 <= |t| && (t[i] == '/' || t[i + 1] == '/') && begin(t, i + 2) == h <= |t| && t[h..] == rest
  }

  lemma AuthorityGiven(t: string, i: nat, h: nat, f: nat, tail: string, rest: string, host: string, port: nat)
    requires HostAt(HostBegin, t, i, h, rest) && HostLeads(HostScan, t, h, f, tail, host, port)
    ensures HostLeads(AuthorityScan, t, i, f, tail, host, port)
  {
    AuthorityAt(t, i);
  }

  lemma AuthorityPrinted(t: string, i: nat, p: Pieces, host: string, port: nat, tail: string, rest: string)
    returns (f: nat)
    requires Meant(Names, p, host, port) && IsTail(tail)
    requires rest == p.literal + (p.name + (p.port + tail)) && i <= |t| && t[i..] == p.slashes + (p.user + rest)
    ensures HostLeads(AuthorityScan, t, i, f, tail, host, port)
  {
    var h := i + 2 + |p.user|;
    f := h + |p.literal| + |p.name| + |p.port|;
    HostFollows(t, i, p, host, port, tail, rest);
    HostPrinted(t, h, p, host, port, tail);
    AuthorityGiven(t, i, h, f, tail, rest, host, port);
  }

  lemma HostFollows(t: string, i: nat, p: Pieces, host: string, port: nat, tail: string, rest: string)
    requires Meant(Names, p, host, port) && IsTail(tail)
    requires rest == p.literal + (p.name + (p.port + tail)) && i <= |t| && t[i..] == p.slashes + (p.user + rest)
    ensures HostAt(HostBegin, t, i, i + 2 + |p.user|, rest)
  {
    assert Names(p, host, port);
    SlashesPrinted(t, i, p.slashes, p.user + rest);
    HostHasNoAt(p.literal, p.name, p.port);
    RegroupHost(p.literal, p.name, p.port, tail);
    UserPrinted(t, i + 2, p.user, p.literal + (p.name + p.port), tail, rest);
  }

  lemma RegroupHost(literal: string, name: string, port: string, tail: string)
    ensures literal + (name + (port + tail)) == literal + (name + port) + tail
  {
  }

  lemma SlashesPrinted(t: string, i: nat, slashes: string, rest: string)
    requires AreSlashes(slashes) && i <= |t| && t[i..] == slashes + rest
    ensures i + 2 <= |t| && (t[i] == '/' || t[i + 1] == '/') && t[i + 2..] == rest
  {
    SplitRest(t, i, slashes, rest);
    assert t[i] == t[i..i + 2][0] && t[i + 1] == t[i..i + 2][1];
  }

  /** A path of this text stands between `f` and `g`, and `rest` behind it. */
  ghost predicate PathStands(t: string, f: nat, g: nat, path: string, rest: string) {
    && f <= g <= |t| && t[f..g] == path && t[g..] == rest && (At(t, g) == '\0' || At(t, g) == '?' || At(t, g) == '#')
    && (f < g ==> t[f] == '/' && Run(t, f + 1, IsPathChar) == g)
  }

  lemma PathWritten(t: string, f: nat, path: string, rest: string)
    requires IsPath(path) && f <= |t| && t[f..] == path + rest && (rest == "" || rest[0] == '?' || rest[0] == '#')
    ensures PathStands(t, f, f + |path|, path, rest)
  {
    var g := f + |path|;
    SplitRest(t, f, path, rest);
    AtFront(t, g, rest);
    if path != "" {
      SlashFirst(t, f, path, rest);
    }
  }

  lemma PathGiven(t: string, f: nat, g: nat, path: string, rest: string)
    requires PathStands(t, f, g, path, rest)
    ensures Gives(PathScan, t, f, Scan(true, g, Decode(path)))
  {
  }

  lemma SlashFirst(t: string, f: nat, path: string, rest: string)
    requires IsPath(path) && path != "" && f <= |t| && t[f..] == path + rest && (rest == "" || !IsPathChar(rest[0]))
    ensures f < |t| && t[f] == '/' && Run(t, f + 1, IsPathChar) == f + |path|
  {
    var tail := path[1..];
    assert path + rest == ['/'] + (tail + rest);
    Peel(t, f, '/', tail + rest);
    RunOver(t, f + 1, tail, rest, IsPathChar);
  }

  lemma QueryPrinted(t: string, g: nat, query: string, fragment: string)
    requires IsQuery(query) && query != "" && IsFragment(fragment) && g <= |t| && t[g..] == query + fragment
    ensures At(t, g) == '?' && g + |query| <= |t|
    ensures Gives(QueryScan, t, g + 1, Scan(true, g + |query|, Decode(query[1..])))
  {
    assert query + fragment == ['?'] + (query[1..] + fragment);
    Peel(t, g, '?', query[1..] + fragment);
    RunOver(t, g + 1, query[1..], fragment, IsPChar);
    AtFront(t, g + |query|, fragment);
  }

  lemma SequenceGiven(scheme: (string, nat) -> Scan, authority: (string, nat) -> Authority,
                      path: (string, nat) -> Scan, query: (string, nat) -> Scan,
                      t: string, i: nat, f: nat, g: nat, k: nat, u: Parts)
    requires i <= |t|
    requires Gives(scheme, t, 0, Scan(true, i, u.scheme))
    requires Gives(authority, t, i, Authority(true, f, u.host, u.port))
    requires Gives(path, t, f, Scan(true, g, u.path))
    requires if At(t, g) == '?' then Gives(query, t, g + 1, Scan(true, k, u.query)) else u.query == ""
    ensures Sequence(scheme, authority, path, query, t) == Parsed(u)
  {
  }

  /** The first two scanners read this scheme and authority, and leave `tail`. */
  ghost predicate Leads(t: string, i: nat, f: nat, tail: string, scheme: string, host: string, port: nat) {
    && i <= f <= |t| && t[f..] == tail
    && Gives(SchemeScan, t, 0, Scan(true, i, scheme)) && Gives(AuthorityScan, t, i, Authority(true, f, host, port))
  }

  lemma FrontPrinted(t: string, p: Pieces, host: string, port: nat, tail: string) returns (i: nat, f: nat)
    requires Meant(Names, p, host, port) && IsTail(tail) && IsScheme(p.scheme)
    requires t == p.scheme + (":" + (p.slashes + (p.user + (p.literal + (p.name + (p.port + tail))))))
    ensures Leads(t, i, f, tail, p.scheme, host, port)
  {
    i := |p.scheme| + 1;
    var rest := p.literal + (p.name + (p.port + tail));
    SchemePrinted(t, p.scheme, p.slashes + (p.user + rest));
    f := AuthorityPrinted(t, i, p, host, port, tail, rest);
  }

  /** The last two scanners read this path and query. */
  ghost predicate Ends(t: string, f: nat, g: nat, k: nat, path: string, query: string) {
    && Gives(PathScan, t, f, Scan(true, g, path))
    && if At(t, g) == '?' then Gives(QueryScan, t, g + 1, Scan(true, k, query)) else query == ""
  }

  lemma BackPrinted(t: string, f: nat, p: Pieces) returns (g: nat, k: nat)
    requires IsPath(p.path) && IsQuery(p.query) && IsFragment(p.fragment)
    requires f <= |t| && t[f..] == p.path + (p.query + p.fragment)
    ensures Ends(t, f, g, k, Decode(p.path), if p.query == "" then "" else Decode(p.query[1..]))
  {
    g := f + |p.path|;
    k := g + |p.query|;
    PathWritten(t, f, p.path, p.query + p.fragment);
    PathGiven(t, f, g, p.path, p.query + p.fragment);
    if p.query == "" {
      AtFront(t, g, p.query + p.fragment);
    } else {
      QueryPrinted(t, g, p.query, p.fragment);
    }
  }

  lemma WholeGiven(t: string, i: nat, f: nat, g: nat, k: nat, tail: string, u: Parts)
    requires Leads(t, i, f, tail, u.scheme, u.host, u.port) && Ends(t, f, g, k, u.path, u.query)
    ensures Sequence(SchemeScan, AuthorityScan, PathScan, QueryScan, t) == Parsed(u)
  {
    SequenceGiven(SchemeScan, AuthorityScan, PathScan, QueryScan, t, i, f, g, k, u);
  }

  lemma SpelledIsParsed(p: Pieces, t: string)
    requires WellFormed(p) && TextOf(p) == t
    ensures Sequence(SchemeScan, AuthorityScan, PathScan, QueryScan, t) == Parsed(Said(p))
  {
    FormedIsWellFormed(p);
    var tail := p.path + (p.query + p.fragment);
    assert Names(p, p.literal + p.name, PortOf(p.port));
    var i, f := FrontPrinted(t, p, p.literal + p.name, PortOf(p.port), tail);
    var g, k := BackPrinted(t, f, p);
    WholeGiven(t, i, f, g, k, tail, Said(p));
  }

  // ---- From the text to the pieces ----

  lemma AllInRun(t: string, from: nat, p: char -> bool)
    requires from <= |t|
    ensures All(t[from..Run(t, from, p)], p)
  {
    RunHolds(t, from, p);
  }

  lemma SchemeRead(t: string, i: nat, scheme: string)
    requires Gives(SchemeScan, t, 0, Scan(true, i, scheme))
    ensures 0 < i <= |t| && IsScheme(scheme) && t[..i] == scheme + ":"
  {
    AllInRun(t, 1, IsSchemeChar);
    assert t[..i - 1] == [t[0]] + t[1..i - 1];
    assert t[..i] == t[..i - 1] + [t[i - 1]];
  }

  lemma UserRead(t: string, j: nat)
    requires j <= |t|
    ensures IsUser(t[j..HostStart(t, j)])
  {
    var h := HostStart(t, j);
    if h > j {
      IndexOfFirst(t, '@', j);
      assert t[j..h][..h - j - 1] == t[j..h - 1];
      assert t[j..h][h - j - 1] == t[h - 1];
    }
  }

  lemma LiteralRead(t: string, i: nat)
    requires i <= |t| && AddressScan(t, i).ok
    ensures var s := AddressScan(t, i); s.text == t[i..s.end] && (s.text == "" || IsLiteral(s.text))
  {
    var s := AddressScan(t, i);
    if At(t, i) == '[' {
      var k := if At(t, i + 1) == 'v' && IsHexDigit(At(t, i + 2)) && At(t, i + 3) == '.' then i + 4 else i + 1;
      LiteralPieces(t, i, k, s.end);
    }
  }

  lemma LiteralPieces(t: string, i: nat, k: nat, end: nat)
    requires end > 0 && Bracketed(t, i, end - 1, k)
    ensures IsLiteral(t[i..end])
  {
    var version, address := t[i + 1..k], t[k..end - 1];
    AllInRun(t, k, IsAddressChar);
    JoinSlices(t, i, i + 1, k);
    JoinSlices(t, i, k, end - 1);
    JoinSlices(t, i, end - 1, end);
    assert t[i..i + 1] == "[" && t[end - 1..end] == "]";
    assert IsBracketed(t[i..end], version, address);
  }

  lemma PortRead(t: string, e: nat)
    requires e <= |t|
    ensures var f := if At(t, e) == ':' then Run(t, e + 1, IsDigit) else e;
      IsPort(t[e..f]) && PortIs(t, e, f, PortOf(t[e..f]))
  {
    if At(t, e) == ':' {
      var f := Run(t, e + 1, IsDigit);
      AllInRun(t, e + 1, IsDigit);
      RunOfDigits(t, e + 1);
      assert t[e..f][1..] == t[e + 1..f];
    }
  }

  /** Where the pieces of an authority end. */
  datatype Cuts = Cuts(host: nat, name: nat, port: nat)

  ghost predicate AuthorityCut(t: string, i: nat, f: nat, c: Cuts, host: string, port: nat) {
    && i + 2 <= c.host <= c.name <= c.port <= f <= |t|
    && AreSlashes(t[i..i + 2]) && IsUser(t[i + 2..c.host]) && IsHost(t[c.host..c.name], t[c.name..c.port])
    && IsPort(t[c.port..f])
    && host == t[c.host..c.name] + t[c.name..c.port] && port == PortOf(t[c.port..f])
  }

  lemma HostRead(t: string, i: nat, f: nat, host: string, port: nat) returns (c: Cuts)
    requires i + 2 <= |t| && AreSlashes(t[i..i + 2])
    requires AfterAddress(t, AddressScan(t, HostStart(t, i + 2))) == Authority(true, f, host, port)
    ensures AuthorityCut(t, i, f, c, host, port)
  {
    var h := HostStart(t, i + 2);
    var a := AddressScan(t, h);
    var e := Run(t, a.end, IsUnreserved);
    c := Cuts(h, a.end, e);
    UserRead(t, i + 2);
    LiteralRead(t, h);
    AllInRun(t, a.end, IsUnreserved);
    PortRead(t, e);
    var g := if At(t, e) == ':' then Run(t, e + 1, IsDigit) else e;
    NameAndPort(t, a.end, e, g, a.text, PortOf(t[e..g]));
  }

  lemma AuthorityRead(t: string, i: nat, f: nat, host: string, port: nat) returns (c: Cuts)
    requires Gives(AuthorityScan, t, i, Authority(true, f, host, port))
    ensures AuthorityCut(t, i, f, c, host, port)
  {
    assert i + 2 <= |t| && AreSlashes(t[i..i + 2]);
    AuthorityAt(t, i);
    c := HostRead(t, i, f, host, port);
  }

  lemma PathRead(t: string, f: nat, g: nat, path: string)
    requires Gives(PathScan, t, f, Scan(true, g, path)) && '\0' !in t
    ensures f <= g <= |t| && IsPath(t[f..g]) && path == Decode(t[f..g])
    ensures g < |t| ==> t[g] == '?' || t[g] == '#'
  {
    if At(t, f) == '/' {
      AllInRun(t, f + 1, IsPathChar);
      assert t[f..g] == ['/'] + t[f + 1..g];
    }
    assert g < |t| ==> t[g] in t;
  }

  lemma QueryRead(t: string, g: nat, k: nat, query: string)
    requires g < |t| && t[g] == '?' && Gives(QueryScan, t, g + 1, Scan(true, k, query)) && '\0' !in t
    ensures g < k <= |t| && IsQuery(t[g..k]) && query == Decode(t[g..k][1..])
    ensures k < |t| ==> t[k] == '#'
  {
    AllInRun(t, g + 1, IsPChar);
    assert t[g..k][1..] == t[g + 1..k];
    assert k < |t| ==> t[k] in t;
  }

  ghost predicate BackCut(t: string, f: nat, g: nat, k: nat, path: string, query: string) {
    && f <= g <= k <= |t|
    && IsPath(t[f..g]) && IsQuery(t[g..k]) && IsFragment(t[k..])
    && path == Decode(t[f..g]) && query == if t[g..k] == "" then "" else Decode(t[g..k][1..])
  }

  lemma BackRead(t: string, f: nat, g: nat, k: nat, path: string, query: string) returns (k': nat)
    requires Ends(t, f, g, k, path, query) && '\0' !in t
    ensures BackCut(t, f, g, k', path, query)
  {
    PathRead(t, f, g, path);
    if At(t, g) == '?' {
      QueryRead(t, g, k, query);
      k' := k;
    } else {
      k' := g;
    }
  }

  lemma Rejoin(t: string, a: nat, b: nat)
    requires a <= b <= |t|
    ensures t[a..b] + t[b..] == t[a..]
  {
  }

  /** The pieces between the cuts. */
  ghost function Sliced(t: string, scheme: string, i: nat, f: nat, g: nat, k: nat, c: Cuts): Pieces
    requires i + 2 <= c.host <= c.name <= c.port <= f <= g <= k <= |t|
  {
    Pieces(scheme, t[i..i + 2], t[i + 2..c.host], t[c.host..c.name], t[c.name..c.port], t[c.port..f],
           t[f..g], t[g..k], t[k..])
  }

  lemma SlicedText(t: string, scheme: string, i: nat, f: nat, g: nat, k: nat, c: Cuts)
    requires i + 2 <= c.host <= c.name <= c.port <= f <= g <= k <= |t| && t[..i] == scheme + ":"
    ensures TextOf(Sliced(t, scheme, i, f, g, k, c)) == t
  {
    Rejoin(t, g, k);
    Rejoin(t, f, g);
    Rejoin(t, c.port, f);
    Rejoin(t, c.name, c.port);
    Rejoin(t, c.host, c.name);
    Rejoin(t, i + 2, c.host);
    Rejoin(t, i, i + 2);
    assert scheme + (":" + t[i..]) == t[..i] + t[i..] == t;
  }

  lemma CutIsSpelled(t: string, i: nat, f: nat, g: nat, k: nat, c: Cuts, u: Parts) returns (p: Pieces)
    requires i <= |t| && t[..i] == u.scheme + ":" && IsScheme(u.scheme)
    requires AuthorityCut(t, i, f, c, u.host, u.port) && BackCut(t, f, g, k, u.path, u.query)
    ensures Spells(p, t, u)
  {
    p := Sliced(t, u.scheme, i, f, g, k, c);
    SlicedText(t, u.scheme, i, f, g, k, c);
    FormedIsWellFormed(p);
  }

  /** What each scanner gave when all of them succeeded. */
  lemma SequenceRead(scheme: (string, nat) -> Scan, authority: (string, nat) -> Authority,
                     path: (string, nat) -> Scan, query: (string, nat) -> Scan, t: string, u: Parts)
    returns (i: nat, f: nat, g: nat, k: nat)
    requires Sequence(scheme, authority, path, query, t) == Parsed(u)
    ensures Gives(scheme, t, 0, Scan(true, i, u.scheme))
    ensures Gives(authority, t, i, Authority(true, f, u.host, u.port))
    ensures Gives(path, t, f, Scan(true, g, u.path))
    ensures if At(t, g) == '?' then Gives(query, t, g + 1, Scan(true, k, u.query)) else u.query == ""
  {
    i := scheme(t, 0).end;
    f := authority(t, i).end;
    g := path(t, f).end;
    k := query(t, g + 1).end;
  }

  lemma ParsedIsSpelled(t: string, u: Parts) returns (p: Pieces)
    requires Sequence(SchemeScan, AuthorityScan, PathScan, QueryScan, t) == Parsed(u) && '\0' !in t
    ensures Spells(p, t, u)
  {
    var i, f, g, k := SequenceRead(SchemeScan, AuthorityScan, PathScan, QueryScan, t, u);
    SchemeRead(t, i, u.scheme);
    var c := AuthorityRead(t, i, f, u.host, u.port);
    var k' := BackRead(t, f, g, k, u.path, u.query);
    p := CutIsSpelled(t, i, f, g, k', c, u);
  }

  /**
   * Which texts are parsed, and to what: exactly those put together from a scheme, user information, a bracketed
   * address, a name, a port, a path, a query and a fragment, all but the scheme and the slashes optional.
   */
  lemma ParsedExactly(uri: string, u: Parts)
    ensures FromStr(uri) == Parsed(u) <==> exists p :: Spells(p, CStr(uri), u)
  {
    var t := CStr(uri);
    IndexOfFirst(uri, '\0', 0);
    if FromStr(uri) == Parsed(u) {
      var p := ParsedIsSpelled(t, u);
    }
    if exists p :: Spells(p, t, u) {
      var p :| Spells(p, t, u);
      SpelledIsParsed(p, t);
    }
  }

  lemma SpelledParses(p: Pieces, t: string, u: Parts)
    requires Spells(p, t, u) && CStr(t) == t
    ensures FromStr(t) == Parsed(u)
  {
    SpelledIsParsed(p, t);
  }

  /** A host is enough. */
  lemma BareHost(scheme: string, host: string)
    requires IsScheme(scheme) && IsRegName(host)
    ensures FromStr(scheme + "://" + host) == Parsed(Parts(scheme, host, "", 0, ""))
  {
    var p := Pieces(scheme, "//", "", "", host, "", "", "", "");
    var t := scheme + "://" + host;
    FormedIsWellFormed(p);
    assert TextOf(p) == t;
    CStrWhole(t);
    assert "" + host == host;
    SpelledParses(p, t, Parts(scheme, host, "", 0, ""));
  }

  // ---- Printing and parsing back ----

  ghost predicate IsRegName(s: string) {
    s != "" && All(s, IsUnreserved)
  }

  lemma EncodedAlphabets(text: string)
    ensures All(URI.Encode(text), IsPChar) && All(PATH.Encode(text), IsPathChar)
    ensures '\0' !in URI.Encode(text) && '\0' !in PATH.Encode(text)
  {
    EncodeAlphabet(URI, text);
    EncodeAlphabet(PATH, text);
  }

  lemma PushPlainStarts(path: string, piece: string)
    requires IsBytes(path) && IsBytes(piece) && (path == "" || path[0] == '/')
    ensures var r := PushPlain(path, piece); r != "" && r[0] == '/' && IsBytes(r)
  {
  }

  lemma {:induction false} PathStarts(path: string, part: string, from: nat)
    requires from <= |part| && IsBytes(path) && IsBytes(part) && (path == "" || path[0] == '/')
    ensures var r := AppendFrom(PushPlain, path, part, from); r != "" && r[0] == '/' && IsBytes(r)
    decreases |part| - from
  {
    var end := IndexOf(part, '/', from);
    if end == from < |part| {
      PathStarts(path, part, end + 1);
    } else {
      var longer := PushPlain(path, part[from..end]);
      assert forall c <- part[from..end] :: c in part;
      PushPlainStarts(path, part[from..end]);
      if end < |part| {
        PathStarts(longer, part, end + 1);
      }
    }
  }

  lemma AppendedPath(part: string)
    requires IsBytes(part)
    ensures var path := Append(PushEncoded, "", part);
      && path != "" && IsPath(path) && '\0' !in path
      && Decode(path) == Append(PushPlain, "", part)
  {
    var plain := Append(PushPlain, "", part);
    AppendIsEncoded("", part);
    PathStarts("", part, 0);
    EncodedAlphabets(plain);
    DecodeEncode(PATH, plain);
  }

  lemma PortWritten(port: nat)
    requires port < 65536
    ensures IsPort(PortText(port)) && PortOf(PortText(port)) == port && '\0' !in PortText(port)
  {
    if port > 0 {
      DecimalDigits(port);
      ValuePrint(port, 10);
      assert PortText(port)[1..] == Print(port, 10);
    }
  }

  lemma QueryWritten(query: string)
    requires IsBytes(query)
    ensures var text := QueryText(query);
      && IsQuery(text) && '\0' !in text
      && query == if text == "" then "" else Decode(text[1..])
  {
    EncodedAlphabets(query);
    DecodeEncode(URI, query);
    if query != "" {
      assert QueryText(query)[1..] == URI.Encode(query);
    }
  }

  lemma CStrWhole(t: string)
    requires '\0' !in t
    ensures CStr(t) == t
  {
    IndexOfUnique(t, '\0', 0, |t|);
  }

  /** The pieces of a printed URI. */
  function Printed(u: Parts): Pieces {
    Pieces(u.scheme, "//", "", "", u.host, PortText(u.port), u.path, QueryText(u.query), "")
  }

  lemma BuildIs(u: Parts)
    requires u.scheme != "" && u.host != ""
    ensures Build(u) == Some(TextOf(Printed(u)))
  {
    var rest := u.path + QueryText(u.query);
    assert QueryText(u.query) + "" == QueryText(u.query);
    SlashesAfter(u.scheme, u.host, PortText(u.port), rest);
    assert "" + (u.host + (PortText(u.port) + rest)) == u.host + (PortText(u.port) + rest);
  }

  lemma SlashesAfter(scheme: string, host: string, port: string, rest: string)
    ensures scheme + "://" + host + port + rest == scheme + (":" + ("//" + (host + (port + rest))))
  {
    assert "://" == ":" + "//";
    assert ":" + ("//" + (host + (port + rest))) == "://" + (host + (port + rest));
  }

  lemma PrintedIsText(u: Parts)
    requires '\0' !in u.scheme && '\0' !in u.host && '\0' !in PortText(u.port)
    requires '\0' !in u.path && '\0' !in QueryText(u.query)
    ensures CStr(TextOf(Printed(u))) == TextOf(Printed(u))
  {
    CStrWhole(TextOf(Printed(u)));
  }

  /**
   * A URI whose path was built by appending, printed and parsed, gives back its scheme, host and
   * port, the plain path and the query.
   */
  lemma ParseBuilt(scheme: string, host: string, part: string, port: nat, query: string)
    requires IsScheme(scheme) && IsRegName(host) && port < 65536 && IsBytes(part) && IsBytes(query)
    ensures var u := Parts(scheme, host, Append(PushEncoded, "", part), port, query);
      Build(u).Some? && FromStr(Build(u).value) == Parsed(u.(path := Append(PushPlain, "", part)))
  {
    var u := Parts(scheme, host, Append(PushEncoded, "", part), port, query);
    var v := u.(path := Append(PushPlain, "", part));
    AppendedPath(part);
    PortWritten(port);
    QueryWritten(query);
    BuildIs(u);
    PrintedIsText(u);
    PrintedSpells(u, v);
    SpelledParses(Printed(u), TextOf(Printed(u)), v);
  }

  lemma PrintedSpells(u: Parts, v: Parts)
    requires IsScheme(u.scheme) && IsRegName(u.host) && IsPath(u.path)
    requires IsPort(PortText(u.port)) && IsQuery(QueryText(u.query))
    requires PortOf(PortText(u.port)) == u.port && v == u.(path := Decode(u.path))
    requires u.query == if QueryText(u.query) == "" then "" else Decode(QueryText(u.query)[1..])
    ensures Spells(Printed(u), TextOf(Printed(u)), v)
  {
    FormedIsWellFormed(Printed(u));
    assert "" + u.host == u.host;
  }

  /**
   * So the path a client resolves reaches the server as it is exactly when it starts with a slash
   * and has no two slashes in a row.
   */
  lemma ResolvedPathArrives(scheme: string, host: string, part: string, port: nat, query: string)
    requires IsScheme(scheme) && IsRegName(host) && port < 65536 && IsBytes(part) && IsBytes(query)
    ensures var u := Parts(scheme, host, Append(PushEncoded, "", part), port, query);
      && Build(u).Some?
      && (FromStr(Build(u).value) == Parsed(u.(path := part)) <==> part != "" && part[0] == '/' && NoDoubleSlash(part))
  {
    ParseBuilt(scheme, host, part, port, query);
    PathKeptExactly(part);
  }
}
