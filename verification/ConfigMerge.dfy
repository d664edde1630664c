/**
 * Looking a URL up in the HTTP settings (`Settings::operator[]`), and the laws of merging behind it.
 */
module ConfigMerge {
  import opened Configs
  import opened Multimaps
  import opened Text

  function Fold<C>(merge: (C, C) -> C, empty: C, cs: seq<C>): C {
    if cs == [] then empty else merge(Fold(merge, empty, cs[..|cs| - 1]), cs[|cs| - 1])
  }

  function MergeAll(cs: seq<Config>): Config {
    Fold(Merge, EMPTY, cs)
  }

  /** An entry of the settings file: the URLs it is for, as a regular expression, and the configuration. */
  datatype Entry = Entry(pattern: string, config: Config)

  function Matching(entries: seq<Entry>, url: string, matches: (string, string) -> bool): seq<Config> {
    if entries == [] then []
    else
      var last := entries[|entries| - 1];
      Matching(entries[..|entries| - 1], url, matches) + if matches(last.pattern, url) then [last.config] else []
  }

  /** The positions of the entries that match, in order. */
  ghost predicate AreMatching(positions: seq<nat>, entries: seq<Entry>, url: string, matches: (string, string) -> bool) {
    && (forall i, j :: 0 <= i < j < |positions| ==> positions[i] < positions[j])
    && (forall k :: 0 <= k < |entries| ==> (k in positions <==> matches(entries[k].pattern, url)))
    && (forall i :: 0 <= i < |positions| ==> positions[i] < |entries|)
  }

  /** Every entry that matches is merged once, in the order of the file, and no other. */
  lemma {:induction false} MatchingExactly(entries: seq<Entry>, url: string, matches: (string, string) -> bool)
    returns (positions: seq<nat>)
    ensures AreMatching(positions, entries, url, matches) && |Matching(entries, url, matches)| == |positions|
    ensures forall i :: 0 <= i < |positions| ==> Matching(entries, url, matches)[i] == entries[positions[i]].config
  {
    if entries == [] {
      positions := [];
    } else {
      var n := |entries| - 1;
      var front := MatchingExactly(entries[..n], url, matches);
      positions := front + if matches(entries[n].pattern, url) then [n] else [];
      OneMoreMatching(front, entries, url, matches, positions);
      forall i | 0 <= i < |front| ensures entries[..n][front[i]] == entries[positions[i]] {
      }
    }
  }

  lemma OneMoreMatching(front: seq<nat>, entries: seq<Entry>, url: string, matches: (string, string) -> bool,
                        positions: seq<nat>)
    requires entries != [] && AreMatching(front, entries[..|entries| - 1], url, matches)
    requires var n := |entries| - 1; positions == front + if matches(entries[n].pattern, url) then [n] else []
    ensures AreMatching(positions, entries, url, matches)
  {
    var n := |entries| - 1;
    forall k | 0 <= k < |entries| ensures k in positions <==> matches(entries[k].pattern, url) {
      assert k < n ==> entries[k] == entries[..n][k];
      assert k in front ==> k < n;
    }
  }

  lemma MergeAllOneMore(cs: seq<Config>, c: Config)
    ensures MergeAll(cs + [c]) == Merge(MergeAll(cs), c) && cs + [] == cs
  {
    assert (cs + [c])[..|cs|] == cs;
  }

  lemma LookupRound(entries: seq<Entry>, i: nat, url: string, matches: (string, string) -> bool)
    requires i < |entries|
    ensures var before := MergeAll(Matching(entries[..i], url, matches));
      MergeAll(Matching(entries[..i + 1], url, matches))
        == if matches(entries[i].pattern, url) then Merge(before, entries[i].config) else before
  {
    assert entries[..i + 1][..i] == entries[..i];
    MergeAllOneMore(Matching(entries[..i], url, matches), entries[i].config);
  }

  method Lookup(entries: seq<Entry>, url: string, matches: (string, string) -> bool) returns (result: HttpConfig)
    ensures fresh(result) && result.Value() == MergeAll(Matching(entries, url, matches))
  {
    result := new HttpConfig(EMPTY);
    for i := 0 to |entries|
      invariant fresh(result) && result.Value() == MergeAll(Matching(entries[..i], url, matches))
    {
      LookupRound(entries, i, url, matches);
      if matches(entries[i].pattern, url) {
        result.MergeIn(entries[i].config);
      }
    }
    assert entries[..|entries|] == entries;
  }

  // ---- Laws ----

  lemma OAuth2Associates(a: Option<OAuth2Config>, b: Option<OAuth2Config>, c: Option<OAuth2Config>)
    ensures MergeOptional(MergeOptional(a, b), c) == MergeOptional(a, MergeOptional(b, c))
  {
  }

  lemma MergeAssociates(a: Config, b: Config, c: Config)
    ensures Merge(Merge(a, b), c) == Merge(a, Merge(b, c))
  {
    MultimapsAssociate(a.headers, b.headers, c.headers);
    MultimapsAssociate(a.query, b.query, c.query);
    OAuth2Associates(a.oauth2, b.oauth2, c.oauth2);
    assert MergeCookies(MergeCookies(a.cookies, b.cookies), c.cookies)
        == MergeCookies(a.cookies, MergeCookies(b.cookies, c.cookies));
  }

  lemma MergeIdentity(a: Config)
    ensures Merge(EMPTY, a) == a && Merge(a, EMPTY) == a
  {
    MultimapsIdentity(a.headers);
    MultimapsIdentity(a.query);
  }

  /** Merging groups of entries and then the groups gives the same as merging them one by one. */
  lemma {:induction false} MergeAllConcat(a: seq<Config>, b: seq<Config>)
    ensures MergeAll(a + b) == Merge(MergeAll(a), MergeAll(b))
  {
    if b == [] {
      assert a + b == a;
      MergeIdentity(MergeAll(a));
    } else {
      var front, last := b[..|b| - 1], b[|b| - 1];
      assert (a + b)[..|a + b| - 1] == a + front;
      MergeAllConcat(a, front);
      MergeAssociates(MergeAll(a), MergeAll(front), last);
    }
  }

  /** The configuration given to the client acts as one more entry behind all others, matching every URL. */
  lemma AdHocIsLastEntry(entries: seq<Entry>, adHoc: Entry, url: string, matches: (string, string) -> bool)
    requires matches(adHoc.pattern, url)
    ensures Merge(MergeAll(Matching(entries, url, matches)), adHoc.config)
         == MergeAll(Matching(entries + [adHoc], url, matches))
  {
    var all := entries + [adHoc];
    assert all[..|all| - 1] == entries;
    MergeAllOneMore(Matching(entries, url, matches), adHoc.config);
  }

  // ---- What merging a list comes to, field by field ----

  /** `r` is what the last element that has the field says, and nothing if none has it. */
  ghost predicate FromLast<C, T(!new)>(cs: seq<C>, field: C -> Option<T>, r: Option<T>) {
    if r.None? then forall i :: 0 <= i < |cs| ==> field(cs[i]).None?
    else exists i :: 0 <= i < |cs| && field(cs[i]) == r && forall j :: i < j < |cs| ==> field(cs[j]).None?
  }

  ghost predicate FromFirst<C, T(!new)>(cs: seq<C>, field: C -> Option<T>, r: Option<T>) {
    if r.None? then forall i :: 0 <= i < |cs| ==> field(cs[i]).None?
    else exists i :: 0 <= i < |cs| && field(cs[i]) == r && forall j :: 0 <= j < i ==> field(cs[j]).None?
  }

  /** Merging takes the later value of this field, if there is one. */
  ghost predicate TakesLater<C(!new), T(!new)>(merge: (C, C) -> C, empty: C, field: C -> Option<T>) {
    field(empty).None? && forall a, b {:trigger merge(a, b)} :: field(merge(a, b)) == Later(field(a), field(b))
  }

  ghost predicate TakesEarlier<C(!new), T(!new)>(merge: (C, C) -> C, empty: C, field: C -> Option<T>) {
    field(empty).None? && forall a, b {:trigger merge(a, b)} :: field(merge(a, b)) == Later(field(b), field(a))
  }

  lemma LastOneMore<C, T(!new)>(cs: seq<C>, last: C, field: C -> Option<T>, r: Option<T>)
    requires FromLast(cs, field, r)
    ensures FromLast(cs + [last], field, Later(r, field(last)))
  {
    var all := cs + [last];
    assert all[|cs|] == last;
    if field(last).None? && r.Some? {
      var i :| 0 <= i < |cs| && field(cs[i]) == r && forall j :: i < j < |cs| ==> field(cs[j]).None?;
      assert all[i] == cs[i];
    }
  }

  lemma FirstOneMore<C, T(!new)>(cs: seq<C>, last: C, field: C -> Option<T>, r: Option<T>)
    requires FromFirst(cs, field, r)
    ensures FromFirst(cs + [last], field, Later(field(last), r))
  {
    var all := cs + [last];
    assert all[|cs|] == last;
    if r.Some? {
      var i :| 0 <= i < |cs| && field(cs[i]) == r && forall j :: 0 <= j < i ==> field(cs[j]).None?;
      assert all[i] == cs[i];
    }
  }

  lemma {:induction false} LastWins<C(!new), T(!new)>(merge: (C, C) -> C, empty: C, cs: seq<C>, field: C -> Option<T>)
    requires TakesLater(merge, empty, field)
    ensures FromLast(cs, field, field(Fold(merge, empty, cs)))
  {
    if cs != [] {
      var front, last := cs[..|cs| - 1], cs[|cs| - 1];
      LastWins(merge, empty, front, field);
      LastOneMore(front, last, field, field(Fold(merge, empty, front)));
      assert front + [last] == cs;
    }
  }

  lemma {:induction false} FirstWins<C(!new), T(!new)>(merge: (C, C) -> C, empty: C, cs: seq<C>, field: C -> Option<T>)
    requires TakesEarlier(merge, empty, field)
    ensures FromFirst(cs, field, field(Fold(merge, empty, cs)))
  {
    if cs != [] {
      var front, last := cs[..|cs| - 1], cs[|cs| - 1];
      FirstWins(merge, empty, front, field);
      FirstOneMore(front, last, field, field(Fold(merge, empty, front)));
      assert front + [last] == cs;
    }
  }

  function NonEmpty<T(==)>(s: seq<T>): Option<seq<T>> {
    if s == [] then None else Some(s)
  }

  function AuthOf(c: Config): Option<BasicAuthentication> { c.auth }
  function ProxyOf(c: Config): Option<Proxy> { c.proxy }
  function ApiKeyOf(c: Config): Option<string> { c.apiKey }
  function OAuth2Of(c: Config): OAuth2Config { c.oauth2.GetOr(NO_OAUTH2) }
  function ClientId(c: Config): Option<string> { NonEmpty(OAuth2Of(c).clientId) }
  function ClientSecretKeychain(c: Config): Option<string> { NonEmpty(OAuth2Of(c).clientSecretKeychain) }
  function ClientSecret(c: Config): Option<string> { NonEmpty(OAuth2Of(c).clientSecret) }
  function TokenUrl(c: Config): Option<string> { NonEmpty(OAuth2Of(c).tokenUrlOverride) }
  function RefreshUrl(c: Config): Option<string> { NonEmpty(OAuth2Of(c).refreshUrlOverride) }
  function Audience(c: Config): Option<string> { NonEmpty(OAuth2Of(c).audience) }
  function Scopes(c: Config): Option<seq<string>> { NonEmpty(OAuth2Of(c).scopesOverride) }
  function EndpointAuthOf(c: Config): Option<EndpointAuth> { OAuth2Of(c).tokenEndpointAuth }
  function UseForSpecFetch(c: Config): Option<bool> {
    if c.oauth2.None? then None else Some(c.oauth2.value.useForSpecFetch)
  }

  lemma CredentialsTakeLater()
    ensures TakesLater(Merge, EMPTY, AuthOf) && TakesLater(Merge, EMPTY, ProxyOf) && TakesLater(Merge, EMPTY, ApiKeyOf)
  {
  }

  /** Credentials, proxy and API key come from the last matching entry that has them. */
  lemma CredentialsFromLast(cs: seq<Config>)
    ensures FromLast(cs, AuthOf, MergeAll(cs).auth)
    ensures FromLast(cs, ProxyOf, MergeAll(cs).proxy)
    ensures FromLast(cs, ApiKeyOf, MergeAll(cs).apiKey)
  {
    CredentialsTakeLater();
    LastWins(Merge, EMPTY, cs, AuthOf);
    LastWins(Merge, EMPTY, cs, ProxyOf);
    LastWins(Merge, EMPTY, cs, ApiKeyOf);
  }

  lemma ClientTakesLater()
    ensures TakesLater(Merge, EMPTY, ClientId) && TakesLater(Merge, EMPTY, ClientSecret)
    ensures TakesLater(Merge, EMPTY, ClientSecretKeychain)
  {
  }

  lemma RequestTakesLater()
    ensures TakesLater(Merge, EMPTY, TokenUrl) && TakesLater(Merge, EMPTY, RefreshUrl)
    ensures TakesLater(Merge, EMPTY, Audience) && TakesLater(Merge, EMPTY, Scopes)
  {
  }

  lemma OptionsTakeLater()
    ensures TakesLater(Merge, EMPTY, EndpointAuthOf) && TakesLater(Merge, EMPTY, UseForSpecFetch)
  {
  }

  /** The strings and scopes of OAuth2 come from the last matching entry where they are not empty. */
  lemma OAuth2FromLast(cs: seq<Config>)
    ensures FromLast(cs, ClientId, ClientId(MergeAll(cs)))
    ensures FromLast(cs, ClientSecret, ClientSecret(MergeAll(cs)))
    ensures FromLast(cs, ClientSecretKeychain, ClientSecretKeychain(MergeAll(cs)))
    ensures FromLast(cs, TokenUrl, TokenUrl(MergeAll(cs)))
    ensures FromLast(cs, RefreshUrl, RefreshUrl(MergeAll(cs)))
    ensures FromLast(cs, Audience, Audience(MergeAll(cs)))
    ensures FromLast(cs, Scopes, Scopes(MergeAll(cs)))
    ensures FromLast(cs, EndpointAuthOf, EndpointAuthOf(MergeAll(cs)))
    ensures FromLast(cs, UseForSpecFetch, UseForSpecFetch(MergeAll(cs)))
  {
    ClientTakesLater();
    RequestTakesLater();
    OptionsTakeLater();
    LastWins(Merge, EMPTY, cs, ClientId);
    LastWins(Merge, EMPTY, cs, ClientSecret);
    LastWins(Merge, EMPTY, cs, ClientSecretKeychain);
    LastWins(Merge, EMPTY, cs, TokenUrl);
    LastWins(Merge, EMPTY, cs, RefreshUrl);
    LastWins(Merge, EMPTY, cs, Audience);
    LastWins(Merge, EMPTY, cs, Scopes);
    LastWins(Merge, EMPTY, cs, EndpointAuthOf);
    LastWins(Merge, EMPTY, cs, UseForSpecFetch);
  }

  function Cookie(name: string): Config -> Option<string> {
    (c: Config) => if name in c.cookies then Some(c.cookies[name]) else None
  }

  /** A cookie comes from the first matching entry that has it. */
  lemma CookieFromFirst(cs: seq<Config>, name: string)
    ensures FromFirst(cs, Cookie(name), Cookie(name)(MergeAll(cs)))
  {
    FirstWins(Merge, EMPTY, cs, Cookie(name));
  }

  function Concat(parts: seq<seq<string>>): seq<string> {
    if parts == [] then [] else Concat(parts[..|parts| - 1]) + parts[|parts| - 1]
  }

  /** Headers and query pairs of all matching entries are kept, for each name in the order of the entries. */
  lemma {:induction false} PairsInOrder(cs: seq<Config>, name: string)
    ensures Values(MergeAll(cs).headers, name) == Concat(seq(|cs|, i requires 0 <= i < |cs| => Values(cs[i].headers, name)))
    ensures Values(MergeAll(cs).query, name) == Concat(seq(|cs|, i requires 0 <= i < |cs| => Values(cs[i].query, name)))
  {
    if cs != [] {
      var front, last := cs[..|cs| - 1], cs[|cs| - 1];
      PairsInOrder(front, name);
      var headers := seq(|cs|, i requires 0 <= i < |cs| => Values(cs[i].headers, name));
      var query := seq(|cs|, i requires 0 <= i < |cs| => Values(cs[i].query, name));
      assert headers[..|front|] == seq(|front|, i requires 0 <= i < |front| => Values(front[i].headers, name));
      assert query[..|front|] == seq(|front|, i requires 0 <= i < |front| => Values(front[i].query, name));
      ValuesMerged(MergeAll(front).headers, last.headers, name);
      ValuesMerged(MergeAll(front).query, last.query, name);
    }
  }
}
