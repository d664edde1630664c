/** The OAuth 1.0 signature base string (section 3.4.1 of RFC 5849) as `oauth1-signature.cpp` builds it. */
module SignatureBase {
  import opened Text
  import opened Percent
  import opened Sorting

  const OAUTH := Encoder(false, false, true)

  datatype Param = Param(name: string, value: string) {
    predicate Valid() {
      IsBytes(name) && IsBytes(value)
    }
  }

  /** A `std::map<std::string, std::string>`, listed in its iteration order. */
  ghost predicate IsMap(ps: seq<Param>) {
    && (forall p <- ps :: p.Valid())
    && forall i, j :: 0 <= i < j < |ps| ==> LexLeq(ps[i].name, ps[j].name) && ps[i].name != ps[j].name
  }

  ghost predicate DistinctNames(ps: seq<Param>) {
    && (forall p <- ps :: p.Valid())
    && forall i, j :: 0 <= i < j < |ps| ==> ps[i].name != ps[j].name
  }

  function Pair(p: Param): string {
    OAUTH.Encode(p.name) + "=" + OAUTH.Encode(p.value)
  }

  function SortedPairs(ps: seq<Param>): (r: seq<string>)
    ensures forall s <- r :: IsPairText(s)
  {
    SortedPairsAlphabet(ps);
    Sort(LexLeq, Map(Pair, ps))
  }

  function ParamString(ps: seq<Param>): string {
    Join(SortedPairs(ps), "&")
  }

  function BaseString(httpMethod: string, url: string, ps: seq<Param>): string {
    httpMethod + "&" + OAUTH.Encode(url) + "&" + OAUTH.Encode(ParamString(ps))
  }

  // ---- What it has to be, by section 3.6 and 3.4.1 of RFC 5849 ----

  /** `t` codes `s`: unreserved characters as they are, the others as escapes with capital letters. */
  predicate IsCode(t: string, s: string) {
    IsNormal(t, "-._~", 'A') && Decode(t) == s
  }

  lemma CodeExactly(s: string, t: string)
    requires IsBytes(s)
    ensures t == OAUTH.Encode(s) <==> IsCode(t, s)
  {
    EncodedExactly(OAUTH, s, t, "-._~", 'A');
  }

  ghost predicate AllValid(ps: seq<Param>) {
    forall p <- ps :: p.Valid()
  }

  ghost predicate IsCodedPair(pair: string, p: Param) {
    exists name, value :: pair == name + "=" + value && IsCode(name, p.name) && IsCode(value, p.value)
  }

  ghost predicate AreCodedPairs(pairs: seq<string>, ps: seq<Param>) {
    |pairs| == |ps| && forall i :: 0 <= i < |ps| ==> IsCodedPair(pairs[i], ps[i])
  }

  ghost predicate AreSorted(sorted: seq<string>, pairs: seq<string>) {
    multiset(sorted) == multiset(pairs) && IsSorted(LexLeq, sorted)
  }

  ghost predicate IsParamString(q: string, ps: seq<Param>) {
    exists pairs, sorted :: AreCodedPairs(pairs, ps) && AreSorted(sorted, pairs) && q == Join(sorted, "&")
  }

  ghost predicate IsBaseString(base: string, httpMethod: string, url: string, ps: seq<Param>) {
    exists u, q, coded ::
      base == httpMethod + "&" + u + "&" + coded && IsCode(u, url) && IsParamString(q, ps) && IsCode(coded, q)
  }

  lemma CodedPairExactly(pair: string, p: Param)
    requires p.Valid()
    ensures pair == Pair(p) <==> IsCodedPair(pair, p)
  {
    CodeExactly(p.name, OAUTH.Encode(p.name));
    CodeExactly(p.value, OAUTH.Encode(p.value));
    if IsCodedPair(pair, p) {
      var name, value :| pair == name + "=" + value && IsCode(name, p.name) && IsCode(value, p.value);
      CodeExactly(p.name, name);
      CodeExactly(p.value, value);
    }
  }

  lemma CodedPairsExactly(pairs: seq<string>, ps: seq<Param>)
    requires AllValid(ps)
    ensures pairs == Map(Pair, ps) <==> AreCodedPairs(pairs, ps)
  {
    forall i | 0 <= i < |ps| && i < |pairs| ensures pairs[i] == Pair(ps[i]) <==> IsCodedPair(pairs[i], ps[i]) {
      CodedPairExactly(pairs[i], ps[i]);
    }
  }

  lemma ParamStringExactly(q: string, ps: seq<Param>)
    requires AllValid(ps)
    ensures q == ParamString(ps) <==> IsParamString(q, ps)
  {
    var own := Map(Pair, ps);
    CodedPairsExactly(own, ps);
    LexOrder();
    SortSorted(LexLeq, own);
    assert AreSorted(SortedPairs(ps), own);
    if IsParamString(q, ps) {
      var pairs, sorted :| AreCodedPairs(pairs, ps) && AreSorted(sorted, pairs) && q == Join(sorted, "&");
      CodedPairsExactly(pairs, ps);
      AnySortAgrees(pairs, sorted);
    }
  }

  /** The base string is the one text that is built as the standard says. */
  lemma BaseStringExactly(httpMethod: string, url: string, ps: seq<Param>, base: string)
    requires IsBytes(url) && AllValid(ps)
    ensures base == BaseString(httpMethod, url, ps) <==> IsBaseString(base, httpMethod, url, ps)
  {
    var u, q := OAUTH.Encode(url), ParamString(ps);
    JoinBytes(SortedPairs(ps));
    CodeExactly(url, u);
    ParamStringExactly(q, ps);
    CodeExactly(q, OAUTH.Encode(q));
    if base == BaseString(httpMethod, url, ps) {
      assert base == httpMethod + "&" + u + "&" + OAUTH.Encode(q);
    }
    if IsBaseString(base, httpMethod, url, ps) {
      var u', q', coded :|
        base == httpMethod + "&" + u' + "&" + coded && IsCode(u', url) && IsParamString(q', ps) && IsCode(coded, q');
      CodeExactly(url, u');
      ParamStringExactly(q', ps);
      CodeExactly(q, coded);
    }
  }

  method PercentEncode(input: string) returns (encoded: string)
    ensures encoded == OAUTH.Encode(input)
    ensures IsBytes(input) ==> IsCode(encoded, input)
  {
    encoded := "";
    for i := 0 to |input|
      invariant encoded == OAUTH.Encode(input[..i])
    {
      var c := input[i];
      EncodeAppend(OAUTH, input, i);
      if IsAlnum(c) || c == '-' || c == '.' || c == '_' || c == '~' {
        encoded := encoded + [c];
      } else {
        encoded := encoded + ['%', HexDigit(c as int / 16 % 16, true), HexDigit(c as int % 16, true)];
      }
    }
    assert input[..|input|] == input;
    if IsBytes(input) {
      CodeExactly(input, encoded);
    }
  }

  method BuildSignatureBaseString(httpMethod: string, url: string, params: seq<Param>) returns (baseString: string)
    ensures baseString == BaseString(httpMethod, url, params)
    ensures IsBytes(url) && AllValid(params) ==> IsBaseString(baseString, httpMethod, url, params)
  {
    var encodedPairs := EncodedPairs(params);
    encodedPairs := Sort(LexLeq, encodedPairs);
    var paramString := JoinWithAmpersand(encodedPairs);
    baseString := httpMethod + "&";
    var encodedUrl := PercentEncode(url);
    baseString := baseString + encodedUrl + "&";
    var encodedParams := PercentEncode(paramString);
    baseString := baseString + encodedParams;
    assert baseString == BaseString(httpMethod, url, params);
    if IsBytes(url) && AllValid(params) {
      BaseStringExactly(httpMethod, url, params, baseString);
    }
  }

  method EncodedPairs(params: seq<Param>) returns (encodedPairs: seq<string>)
    ensures encodedPairs == Map(Pair, params)
  {
    encodedPairs := [];
    for i := 0 to |params|
      invariant |encodedPairs| == i
      invariant forall k :: 0 <= k < i ==> encodedPairs[k] == Pair(params[k])
    {
      var key := PercentEncode(params[i].name);
      var value := PercentEncode(params[i].value);
      encodedPairs := encodedPairs + [key + "=" + value];
    }
  }

  method JoinWithAmpersand(parts: seq<string>) returns (r: string)
    ensures r == Join(parts, "&")
  {
    r := "";
    for i := 0 to |parts|
      invariant i == 0 ==> r == ""
      invariant i > 0 ==> r + Tail(parts[i..]) == Join(parts, "&")
    {
      JoinHead(parts, i);
      if i > 0 {
        r := r + "&";
      }
      r := r + parts[i];
    }
  }

  /** What is still to be appended once at least one part has been written. */
  ghost function Tail(parts: seq<string>): string {
    if parts == [] then "" else "&" + parts[0] + Tail(parts[1..])
  }

  lemma {:induction false} JoinTail(parts: seq<string>)
    requires parts != []
    ensures Join(parts, "&") == parts[0] + Tail(parts[1..])
  {
    if |parts| > 1 {
      JoinTail(parts[1..]);
    }
  }

  lemma JoinHead(parts: seq<string>, i: nat)
    requires i < |parts|
    ensures Tail(parts[i..]) == "&" + parts[i] + Tail(parts[i + 1..])
    ensures Join(parts, "&") == parts[0] + Tail(parts[1..])
  {
    assert parts[i..][1..] == parts[i + 1..];
    JoinTail(parts);
  }

  // ---- The base string determines what was signed ----

  lemma SeparatorIsLast(a: string, b: string, sep: char)
    requires sep !in b
    ensures (a + [sep] + b)[|a|] == sep
    ensures forall k :: |a| < k <= |a| + |b| ==> (a + [sep] + b)[k] != sep
  {
    forall k | |a| < k <= |a| + |b| ensures (a + [sep] + b)[k] != sep {
      assert (a + [sep] + b)[k] == b[k - |a| - 1];
    }
  }

  /** The last separator is found from the right. */
  lemma LastSeparator(a: string, b: string, c: string, d: string, sep: char)
    requires a + [sep] + b == c + [sep] + d && sep !in b && sep !in d
    ensures a == c && b == d
  {
    var s := a + [sep] + b;
    SeparatorIsLast(a, b, sep);
    SeparatorIsLast(c, d, sep);
    assert s == c + [sep] + d;
    assert |a| == |c|;
    assert a == s[..|a|] && c == s[..|a|];
    assert b == s[|a| + 1..] && d == s[|a| + 1..];
  }

  lemma PairInjective(p: Param, q: Param)
    requires p.Valid() && q.Valid() && Pair(p) == Pair(q)
    ensures p == q
  {
    EncodeAlphabet(OAUTH, p.value);
    EncodeAlphabet(OAUTH, q.value);
    LastSeparator(OAUTH.Encode(p.name), OAUTH.Encode(p.value), OAUTH.Encode(q.name), OAUTH.Encode(q.value), '=');
    EncodeInjective(OAUTH, p.name, q.name);
    EncodeInjective(OAUTH, p.value, q.value);
  }

  predicate IsPairText(s: string) {
    s != "" && forall c <- s :: c != '&' && c as int < 256
  }

  lemma PairAlphabet(p: Param)
    ensures IsPairText(Pair(p))
  {
    EncodeAlphabet(OAUTH, p.name);
    EncodeAlphabet(OAUTH, p.value);
  }

  lemma SortedPairsAlphabet(ps: seq<Param>)
    ensures forall s <- Sort(LexLeq, Map(Pair, ps)) :: IsPairText(s)
  {
    SameElements(Sort(LexLeq, Map(Pair, ps)), Map(Pair, ps));
    forall i | 0 <= i < |ps| ensures IsPairText(Map(Pair, ps)[i]) {
      PairAlphabet(ps[i]);
    }
  }

  lemma {:induction false} JoinBytes(parts: seq<string>)
    requires forall s <- parts :: IsPairText(s)
    ensures IsBytes(Join(parts, "&"))
  {
    if |parts| > 0 {
      assert parts[0] in parts;
    }
    if |parts| > 1 {
      assert forall s <- parts[1..] :: s in parts;
      JoinBytes(parts[1..]);
    }
  }

  /** The list that was joined can be read off the parameter string. */
  lemma JoinInjective(a: seq<string>, b: seq<string>)
    requires forall s <- a :: IsPairText(s)
    requires forall s <- b :: IsPairText(s)
    requires Join(a, "&") == Join(b, "&")
    ensures a == b
  {
    assert a != [] ==> a[0] in a;
    assert b != [] ==> b[0] in b;
    if a != [] && b != [] {
      SplitJoin(a, '&');
      SplitJoin(b, '&');
    }
  }

  lemma HasElement(s: seq<Param>)
    ensures s != [] ==> exists p :: p in s
  {
    assert s != [] ==> s[0] in s;
  }

  lemma LeastEntry(a: seq<Param>, b: seq<Param>)
    requires IsMap(a) && a != [] && b != [] && forall p <- b :: p in a
    ensures a[0] == b[0] || LexLeq(a[0].name, b[0].name)
  {
    assert b[0] in a;
  }

  lemma TailEntries(a: seq<Param>, b: seq<Param>)
    requires IsMap(a) && a != [] && b != [] && a[0] == b[0] && forall p <- a :: p in b
    ensures forall p <- a[1..] :: p in b[1..]
  {
    forall p | p in a[1..] ensures p in b[1..] {
      assert p in a && p.name != a[0].name;
      assert p in b;
    }
  }

  ghost predicate SameEntries(a: seq<Param>, b: seq<Param>) {
    (forall p <- a :: p in b) && forall p <- b :: p in a
  }

  lemma SameHead(a: seq<Param>, b: seq<Param>)
    requires IsMap(a) && IsMap(b) && a != [] && b != [] && SameEntries(a, b)
    ensures a[0] == b[0]
  {
    LeastEntry(a, b);
    LeastEntry(b, a);
    LexTotal(a[0].name, b[0].name);
    SameNameSameEntry(a, b);
  }

  lemma SameTail(a: seq<Param>, b: seq<Param>)
    requires IsMap(a) && IsMap(b) && a != [] && b != [] && a[0] == b[0] && SameEntries(a, b)
    ensures IsMap(a[1..]) && IsMap(b[1..]) && SameEntries(a[1..], b[1..])
  {
    TailEntries(a, b);
    TailEntries(b, a);
  }

  /** Two maps with the same entries are listed in the same order. */
  lemma {:induction false} MapsEqual(a: seq<Param>, b: seq<Param>)
    requires IsMap(a) && IsMap(b) && SameEntries(a, b)
    ensures a == b
  {
    if a == [] || b == [] {
      HasElement(a);
      HasElement(b);
    } else {
      SameHead(a, b);
      SameTail(a, b);
      MapsEqual(a[1..], b[1..]);
      assert a == [a[0]] + a[1..] && b == [b[0]] + b[1..];
    }
  }

  lemma SameNameSameEntry(a: seq<Param>, b: seq<Param>)
    requires IsMap(a) && a != [] && b != [] && a[0].name == b[0].name && forall p <- b :: p in a
    ensures a[0] == b[0]
  {
    assert b[0] in a;
  }

  lemma EntriesIncluded(a: seq<Param>, b: seq<Param>)
    requires forall p :: p in a || p in b ==> p.Valid()
    requires Sort(LexLeq, Map(Pair, a)) == Sort(LexLeq, Map(Pair, b))
    ensures forall p <- a :: p in b
  {
    SameElements(Sort(LexLeq, Map(Pair, a)), Map(Pair, a));
    SameElements(Sort(LexLeq, Map(Pair, b)), Map(Pair, b));
    forall p | p in a ensures p in b {
      var i :| 0 <= i < |a| && a[i] == p;
      assert Map(Pair, a)[i] == Pair(p);
      assert Pair(p) in Map(Pair, b);
      var k :| 0 <= k < |b| && Map(Pair, b)[k] == Pair(p);
      PairInjective(p, b[k]);
    }
  }

  lemma ParamStringInjective(a: seq<Param>, b: seq<Param>)
    requires IsMap(a) && IsMap(b) && ParamString(a) == ParamString(b)
    ensures a == b
  {
    JoinInjective(SortedPairs(a), SortedPairs(b));
    EntriesIncluded(a, b);
    EntriesIncluded(b, a);
    MapsEqual(a, b);
  }

  lemma FieldInjective(x: string, p: string, y: string, q: string)
    requires IsBytes(p) && IsBytes(q)
    requires x + "&" + OAUTH.Encode(p) == y + "&" + OAUTH.Encode(q)
    ensures x == y && p == q
  {
    EncodeAlphabet(OAUTH, p);
    EncodeAlphabet(OAUTH, q);
    LastSeparator(x, OAUTH.Encode(p), y, OAUTH.Encode(q), '&');
    EncodeInjective(OAUTH, p, q);
  }

  /** Nothing else than the same method, URL and parameter map has the same base string. */
  lemma BaseStringInjective(m: string, u: string, a: seq<Param>, n: string, v: string, b: seq<Param>)
    requires IsBytes(u) && IsBytes(v) && IsMap(a) && IsMap(b)
    requires BaseString(m, u, a) == BaseString(n, v, b)
    ensures m == n && u == v && a == b
  {
    JoinBytes(SortedPairs(a));
    JoinBytes(SortedPairs(b));
    FieldInjective(m + "&" + OAUTH.Encode(u), ParamString(a), n + "&" + OAUTH.Encode(v), ParamString(b));
    FieldInjective(m, u, n, v);
    ParamStringInjective(a, b);
  }

  // ---- The order of the parameters ----

  /** The order of section 3.4.1.3.2 of RFC 5849: by encoded name, ties by encoded value. */
  predicate RfcLeq(p: Param, q: Param) {
    if OAUTH.Encode(p.name) == OAUTH.Encode(q.name) then LexLeq(OAUTH.Encode(p.value), OAUTH.Encode(q.value))
    else LexLeq(OAUTH.Encode(p.name), OAUTH.Encode(q.name))
  }

  predicate PairLeq(p: Param, q: Param) {
    LexLeq(Pair(p), Pair(q))
  }

  /** `b` goes on after `a` with a character that sorts before the equals sign. */
  predicate ExtendsBelowEquals(a: string, b: string) {
    |a| < |b| && b[..|a|] == a && b[|a|] < '='
  }

  lemma {:induction false} CompareJoined(a: string, x: string, b: string, y: string)
    requires '=' !in a && '=' !in b && a != b
    ensures LexLeq(a + "=" + x, b + "=" + y) ==
            if ExtendsBelowEquals(a, b) then false
            else if ExtendsBelowEquals(b, a) then true
            else LexLeq(a, b)
  {
    var s, t := a + "=" + x, b + "=" + y;
    if a != [] && b != [] && a[0] == b[0] {
      assert s[1..] == a[1..] + "=" + x && t[1..] == b[1..] + "=" + y;
      CompareJoined(a[1..], x, b[1..], y);
      assert a == [a[0]] + a[1..] && b == [b[0]] + b[1..];
      ExtendsTail(a, b);
      ExtendsTail(b, a);
    }
  }

  lemma ExtendsTail(a: string, b: string)
    requires a != [] && b != [] && a[0] == b[0]
    ensures ExtendsBelowEquals(a, b) == ExtendsBelowEquals(a[1..], b[1..])
  {
    if |a| < |b| {
      assert b[..|a|] == [b[0]] + b[1..][..|a| - 1];
      assert a == [a[0]] + a[1..];
      assert b[..|a|][1..] == b[1..][..|a| - 1];
    }
  }

  lemma ComparePairs(p: Param, q: Param)
    requires OAUTH.Encode(p.name) != OAUTH.Encode(q.name)
    ensures PairLeq(p, q) == if Clash(p, q) then false else if Clash(q, p) then true else RfcLeq(p, q)
  {
    EncodeAlphabet(OAUTH, p.name);
    EncodeAlphabet(OAUTH, q.name);
    CompareJoined(OAUTH.Encode(p.name), OAUTH.Encode(p.value), OAUTH.Encode(q.name), OAUTH.Encode(q.value));
  }

  lemma {:induction false} PrefixIsLess(a: string, b: string)
    requires |a| <= |b| && b[..|a|] == a
    ensures LexLeq(a, b)
  {
    if a != [] {
      assert b[1..][..|a| - 1] == b[..|a|][1..];
      PrefixIsLess(a[1..], b[1..]);
    }
  }

  ghost predicate NamesClash(ps: seq<Param>) {
    exists p, q :: p in ps && q in ps && Clash(p, q)
  }

  predicate Clash(p: Param, q: Param) {
    ExtendsBelowEquals(OAUTH.Encode(p.name), OAUTH.Encode(q.name))
  }

  lemma MapInjective(a: seq<Param>, b: seq<Param>)
    requires forall p :: p in a || p in b ==> p.Valid()
    requires Map(Pair, a) == Map(Pair, b)
    ensures a == b
  {
    assert |Map(Pair, a)| == |Map(Pair, b)|;
    forall i | 0 <= i < |a| ensures a[i] == b[i] {
      assert Map(Pair, a)[i] == Map(Pair, b)[i];
      PairInjective(a[i], b[i]);
    }
  }

  lemma PairLeqOrder()
    ensures IsTotalOrder(PairLeq)
  {
    forall a, b ensures PairLeq(a, b) || PairLeq(b, a) {
      LexTotal(Pair(a), Pair(b));
    }
    forall a, b, c | PairLeq(a, b) && PairLeq(b, c) ensures PairLeq(a, c) {
      LexTransitive(Pair(a), Pair(b), Pair(c));
    }
  }

  lemma RfcLeqOrder()
    ensures IsTotalOrder(RfcLeq)
  {
    forall a, b ensures RfcLeq(a, b) || RfcLeq(b, a) {
      LexTotal(OAUTH.Encode(a.name), OAUTH.Encode(b.name));
      LexTotal(OAUTH.Encode(a.value), OAUTH.Encode(b.value));
    }
    forall a, b, c | RfcLeq(a, b) && RfcLeq(b, c) ensures RfcLeq(a, c) {
      RfcTransitive(a, b, c);
    }
  }

  lemma RfcTransitive(a: Param, b: Param, c: Param)
    requires RfcLeq(a, b) && RfcLeq(b, c)
    ensures RfcLeq(a, c)
  {
    var x, y, z := OAUTH.Encode(a.name), OAUTH.Encode(b.name), OAUTH.Encode(c.name);
    if x == y == z {
      LexTransitive(OAUTH.Encode(a.value), OAUTH.Encode(b.value), OAUTH.Encode(c.value));
    } else if x == z {
      LexTotal(x, y);
    } else if x != y && y != z {
      LexTransitive(x, y, z);
    }
  }

  /** The code's list is the parameter list sorted by joined pairs. */
  lemma CodeOrder(ps: seq<Param>)
    ensures Sort(LexLeq, Map(Pair, ps)) == Map(Pair, Sort(PairLeq, ps))
  {
    SortMap(LexLeq, Pair, PairLeq, ps);
  }

  lemma DistinctEncodings(p: Param, q: Param)
    requires p.Valid() && q.Valid() && p.name != q.name
    ensures OAUTH.Encode(p.name) != OAUTH.Encode(q.name)
  {
    if OAUTH.Encode(p.name) == OAUTH.Encode(q.name) {
      EncodeInjective(OAUTH, p.name, q.name);
    }
  }

  lemma NoClashSameOrder(ps: seq<Param>)
    requires DistinctNames(ps) && !NamesClash(ps)
    ensures Sort(PairLeq, ps) == Sort(RfcLeq, ps)
  {
    forall p, q | p in ps && q in ps ensures PairLeq(p, q) == RfcLeq(p, q) {
      assert !Clash(p, q) && !Clash(q, p);
      if p.name != q.name {
        DistinctEncodings(p, q);
        ComparePairs(p, q);
      } else {
        LexTotal(Pair(p), Pair(p));
        LexTotal(OAUTH.Encode(p.value), OAUTH.Encode(p.value));
      }
    }
    SortAgree(PairLeq, RfcLeq, ps);
  }

  lemma ClashOrder(p: Param, q: Param)
    requires Clash(p, q)
    ensures p != q && !PairLeq(p, q) && !RfcLeq(q, p)
  {
    ComparePairs(p, q);
    var a, b := OAUTH.Encode(p.name), OAUTH.Encode(q.name);
    PrefixIsLess(a, b);
    LexTotal(a, b);
  }

  /** A clash puts two parameters in the opposite order, so no list is sorted both ways. */
  lemma ClashSeparates(ps: seq<Param>, p: Param, q: Param)
    requires p in ps && q in ps && Clash(p, q)
    ensures Sort(PairLeq, ps) != Sort(RfcLeq, ps)
  {
    ClashOrder(p, q);
    PairLeqOrder();
    RfcLeqOrder();
    SortSorted(PairLeq, ps);
    SortSorted(RfcLeq, ps);
    var s := Sort(PairLeq, ps);
    SameElements(s, ps);
    NotSortedBothWays(PairLeq, RfcLeq, s, p, q);
  }

  /** When the code's order is the order the standard asks for: exactly when no names clash. */
  lemma SortsAsRfc(ps: seq<Param>)
    requires DistinctNames(ps)
    ensures Sort(LexLeq, Map(Pair, ps)) == Map(Pair, Sort(RfcLeq, ps)) <==> !NamesClash(ps)
  {
    CodeOrder(ps);
    if NamesClash(ps) {
      var p, q :| p in ps && q in ps && Clash(p, q);
      ClashSeparates(ps, p, q);
      if Map(Pair, Sort(PairLeq, ps)) == Map(Pair, Sort(RfcLeq, ps)) {
        SameElements(Sort(PairLeq, ps), ps);
        SameElements(Sort(RfcLeq, ps), ps);
        MapInjective(Sort(PairLeq, ps), Sort(RfcLeq, ps));
      }
    } else {
      NoClashSameOrder(ps);
    }
  }

  /** Two names that clash: the pairs sort the other way round, since a hyphen sorts before the equals sign. */
  lemma HyphenClashes(x: string, y: string)
    requires IsBytes(x) && IsBytes(y)
    ensures var ps := [Param("a", x), Param("a-", y)];
      DistinctNames(ps) && Sort(LexLeq, Map(Pair, ps)) != Map(Pair, Sort(RfcLeq, ps))
  {
    var p, q := Param("a", x), Param("a-", y);
    var ps := [p, q];
    EncodeKept("a");
    EncodeKept("a-");
    assert ExtendsBelowEquals(OAUTH.Encode("a"), OAUTH.Encode("a-"));
    assert p in ps && q in ps && Clash(p, q);
    SortsAsRfc(ps);
  }

  // ---- The parameters of a token request ----

  const TOKEN_REQUEST_NAMES: set<string> := {
    "oauth_consumer_key", "oauth_signature_method", "oauth_timestamp", "oauth_nonce", "oauth_version",
    "grant_type", "scope", "audience", "refresh_token"
  }

  lemma {:induction false} EncodeKept(s: string)
    requires forall c <- s :: IsUnreserved(c)
    ensures OAUTH.Encode(s) == s
  {
    if s != [] {
      assert s[0] in s;
      EncodeKept(s[1..]);
      assert s == [s[0]] + s[1..];
    }
  }

  lemma TokenNamesUnreserved(n: string)
    requires n in TOKEN_REQUEST_NAMES
    ensures forall k :: 0 <= k < |n| ==> n[k] == '_' || 'a' <= n[k] <= 'z'
  {
  }

  lemma TokenNamesDoNotClash(p: Param, q: Param)
    requires p.name in TOKEN_REQUEST_NAMES && q.name in TOKEN_REQUEST_NAMES
    ensures !Clash(p, q)
  {
    TokenNamesUnreserved(p.name);
    TokenNamesUnreserved(q.name);
    EncodeKept(p.name);
    EncodeKept(q.name);
  }

  /** The names a token request signs never clash, so there the code's order is the standard's. */
  lemma TokenRequestSortsAsRfc(ps: seq<Param>)
    requires DistinctNames(ps) && forall p <- ps :: p.name in TOKEN_REQUEST_NAMES
    ensures Sort(LexLeq, Map(Pair, ps)) == Map(Pair, Sort(RfcLeq, ps))
  {
    forall p, q | p in ps && q in ps ensures !Clash(p, q) {
      TokenNamesDoNotClash(p, q);
    }
    SortsAsRfc(ps);
  }
}
