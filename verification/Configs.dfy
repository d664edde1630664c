/** HTTP configurations and merging one into another (`Config::operator|=` in `http-settings.cpp`). */
module Configs {
  import opened Multimaps
  import opened Text

  datatype BasicAuthentication = BasicAuthentication(user: string, password: string, keychain: string)

  datatype Proxy = Proxy(host: string, port: int, user: string, password: string, keychain: string)

  datatype EndpointAuth = EndpointAuth(isOAuth1: bool, nonceLength: int)

  datatype OAuth2Config = OAuth2Config(clientId: string, clientSecretKeychain: string, clientSecret: string,
                                       tokenUrlOverride: string, refreshUrlOverride: string, audience: string,
                                       scopesOverride: seq<string>, useForSpecFetch: bool,
                                       tokenEndpointAuth: Option<EndpointAuth>)

  datatype Config = Config(cookies: map<string, string>, headers: Multimap, query: Multimap,
                           auth: Option<BasicAuthentication>, proxy: Option<Proxy>, apiKey: Option<string>,
                           oauth2: Option<OAuth2Config>)

  const NO_OAUTH2 := OAuth2Config("", "", "", "", "", "", [], true, None)
  const EMPTY := Config(map[], map[], map[], None, None, None, None)

  // ---- Merging, as a function ----

  /** `insert` of a range keeps what is there. */
  function MergeCookies(a: map<string, string>, b: map<string, string>): map<string, string> {
    b + a
  }

  function Later<T>(a: Option<T>, b: Option<T>): Option<T> {
    if b.Some? then b else a
  }

  function LaterSeq<T(==)>(a: seq<T>, b: seq<T>): seq<T> {
    if b != [] then b else a
  }

  function MergeOAuth2(a: OAuth2Config, b: OAuth2Config): OAuth2Config {
    OAuth2Config(LaterSeq(a.clientId, b.clientId), LaterSeq(a.clientSecretKeychain, b.clientSecretKeychain),
                 LaterSeq(a.clientSecret, b.clientSecret), LaterSeq(a.tokenUrlOverride, b.tokenUrlOverride),
                 LaterSeq(a.refreshUrlOverride, b.refreshUrlOverride), LaterSeq(a.audience, b.audience),
                 LaterSeq(a.scopesOverride, b.scopesOverride), b.useForSpecFetch,
                 Later(a.tokenEndpointAuth, b.tokenEndpointAuth))
  }

  function MergeOptional(a: Option<OAuth2Config>, b: Option<OAuth2Config>): Option<OAuth2Config> {
    if b.None? then a else Some(MergeOAuth2(a.GetOr(NO_OAUTH2), b.value))
  }

  function Merge(a: Config, b: Config): Config {
    Config(MergeCookies(a.cookies, b.cookies), Merged(a.headers, b.headers), Merged(a.query, b.query),
           Later(a.auth, b.auth), Later(a.proxy, b.proxy), Later(a.apiKey, b.apiKey), MergeOptional(a.oauth2, b.oauth2))
  }

  // ---- Merging, as the code does it ----

  class HttpConfig {
    var cookies: map<string, string>
    var headers: Multimap
    var query: Multimap
    var auth: Option<BasicAuthentication>
    var proxy: Option<Proxy>
    var apiKey: Option<string>
    var oauth2: Option<OAuth2Config>

    constructor (c: Config)
      ensures Value() == c
    {
      cookies, headers, query := c.cookies, c.headers, c.query;
      auth, proxy, apiKey, oauth2 := c.auth, c.proxy, c.apiKey, c.oauth2;
    }

    function Value(): Config
      reads this
    {
      Config(cookies, headers, query, auth, proxy, apiKey, oauth2)
    }

    method MergeIn(other: Config)
      modifies this
      ensures Value() == Merge(old(Value()), other)
    {
      cookies := MergeCookies(cookies, other.cookies);
      headers := Merged(headers, other.headers);
      query := Merged(query, other.query);
      if other.auth.Some? {
        auth := other.auth;
      }
      if other.proxy.Some? {
        proxy := other.proxy;
      }
      if other.apiKey.Some? {
        apiKey := other.apiKey;
      }
      if other.oauth2.Some? {
        var merged := MergeOAuth2In(oauth2.GetOr(NO_OAUTH2), other.oauth2.value);
        oauth2 := Some(merged);
      }
    }
  }

  method MergeOAuth2In(ours: OAuth2Config, theirs: OAuth2Config) returns (mine: OAuth2Config)
    ensures mine == MergeOAuth2(ours, theirs)
  {
    mine := MergeClient(ours, theirs);
    mine := MergeUrls(mine, theirs);
    if theirs.audience != "" {
      mine := mine.(audience := theirs.audience);
    }
    if theirs.scopesOverride != [] {
      mine := mine.(scopesOverride := theirs.scopesOverride);
    }
    mine := mine.(useForSpecFetch := theirs.useForSpecFetch);
    if theirs.tokenEndpointAuth.Some? {
      mine := mine.(tokenEndpointAuth := theirs.tokenEndpointAuth);
    }
  }

  method MergeClient(ours: OAuth2Config, theirs: OAuth2Config) returns (mine: OAuth2Config)
    ensures mine == ours.(clientId := LaterSeq(ours.clientId, theirs.clientId),
                          clientSecretKeychain := LaterSeq(ours.clientSecretKeychain, theirs.clientSecretKeychain),
                          clientSecret := LaterSeq(ours.clientSecret, theirs.clientSecret))
  {
    mine := ours;
    if theirs.clientId != "" {
      mine := mine.(clientId := theirs.clientId);
    }
    if theirs.clientSecretKeychain != "" {
      mine := mine.(clientSecretKeychain := theirs.clientSecretKeychain);
    }
    if theirs.clientSecret != "" {
      mine := mine.(clientSecret := theirs.clientSecret);
    }
  }

  method MergeUrls(ours: OAuth2Config, theirs: OAuth2Config) returns (mine: OAuth2Config)
    ensures mine == ours.(tokenUrlOverride := LaterSeq(ours.tokenUrlOverride, theirs.tokenUrlOverride),
                          refreshUrlOverride := LaterSeq(ours.refreshUrlOverride, theirs.refreshUrlOverride))
  {
    mine := ours;
    if theirs.tokenUrlOverride != "" {
      mine := mine.(tokenUrlOverride := theirs.tokenUrlOverride);
    }
    if theirs.refreshUrlOverride != "" {
      mine := mine.(refreshUrlOverride := theirs.refreshUrlOverride);
    }
  }
}
