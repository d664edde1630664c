/**
 * Security requirements (`AuthRegistry::satisfySecurity` and its handlers): an OR of AND-sets of
 * schemes, evaluated by handlers that insert what they can into the configuration they look at.
 */
module Security {
  import opened Configs
  import opened Multimaps
  import opened Text
  import TokenCache
  import TokenHandler

  // ---- Schemes and credentials ----

  datatype Scheme = Basic | BearerToken | ApiKeyQuery(name: string) | ApiKeyHeader(name: string)
                  | ApiKeyCookie(name: string) | OAuth2

  type Alternative = seq<Scheme>

  const AUTHORIZATION := "Authorization"

  function Lower(c: char): char {
    if 'A' <= c <= 'Z' then (c as int + 32) as char else c
  }

  /** `^name .+$` without regard to case, where a dot matches all but line terminators. */
  predicate IsCredential(value: string, name: string) {
    && |value| > |name| + 1
    && (forall i :: 0 <= i < |name| ==> Lower(value[i]) == Lower(name[i]))
    && value[|name|] == ' '
    && (forall i :: |name| < i < |value| ==> value[i] != '\n' && value[i] != '\r')
  }

  predicate Presents(c: Config, name: string) {
    exists v <- Values(c.headers, AUTHORIZATION) :: IsCredential(v, name)
  }

  // ---- What the handlers do, as functions of the configuration ----

  datatype Verdict = Verdict(config: Config, ok: bool)

  /** `token`: what the OAuth2 handler gets if it is asked. */
  function Handled(c: Config, scheme: Scheme, token: Option<string>): Verdict {
    match scheme
    case Basic => Verdict(c, c.auth.Some? || Presents(c, "Basic"))
    case BearerToken => Verdict(c, Presents(c, "Bearer"))
    case ApiKeyQuery(name) =>
      if Has(c.query, name) then Verdict(c, true)
      else if c.apiKey.None? then Verdict(c, false)
      else Verdict(c.(query := Inserted(c.query, name, c.apiKey.value)), true)
    case ApiKeyHeader(name) =>
      if Has(c.headers, name) then Verdict(c, true)
      else if c.apiKey.None? then Verdict(c, false)
      else Verdict(c.(headers := Inserted(c.headers, name, c.apiKey.value)), true)
    case ApiKeyCookie(name) =>
      if name in c.cookies then Verdict(c, true)
      else if c.apiKey.None? then Verdict(c, false)
      else Verdict(c.(cookies := c.cookies[name := c.apiKey.value]), true)
    case OAuth2 =>
      if c.oauth2.None? || token.None? then Verdict(c, false)
      else Verdict(c.(headers := Inserted(c.headers, AUTHORIZATION, "Bearer " + token.value)), true)
  }

  /** The tokens the OAuth2 handler gets, by alternative and position in it. */
  type Tokens = (nat, nat) -> Option<string>

  function AllHandled(c: Config, alt: Alternative, i: nat, j: nat, tokens: Tokens): Verdict
    requires j <= |alt|
    decreases |alt| - j
  {
    if j == |alt| then Verdict(c, true)
    else
      var v := Handled(c, alt[j], tokens(i, j));
      if v.ok then AllHandled(v.config, alt, i, j + 1, tokens) else v
  }

  function AnyHandled(c: Config, alts: seq<Alternative>, i: nat, tokens: Tokens): Verdict
    requires i <= |alts|
    decreases |alts| - i
  {
    if i == |alts| then Verdict(c, false)
    else
      var v := AllHandled(c, alts[i], i, 0, tokens);
      if v.ok then v else AnyHandled(v.config, alts, i + 1, tokens)
  }

  function Evaluated(c: Config, alts: seq<Alternative>, tokens: Tokens): Verdict {
    if alts == [] then Verdict(c, true) else AnyHandled(c, alts, 0, tokens)
  }

  // ---- The code ----

  method AnyAuthorization(config: HttpConfig, name: string) returns (found: bool)
    ensures found == Presents(config.Value(), name)
  {
    var values := Values(config.headers, AUTHORIZATION);
    for k := 0 to |values|
      invariant forall v <- values[..k] :: !IsCredential(v, name)
    {
      if IsCredential(values[k], name) {
        return true;
      }
      assert values[..k + 1] == values[..k] + [values[k]];
    }
    assert values[..|values|] == values;
    found := false;
  }

  method HttpBasicHandler(config: HttpConfig) returns (ok: bool)
    ensures Verdict(config.Value(), ok) == Handled(config.Value(), Basic, None)
  {
    if config.auth.Some? {
      return true;
    }
    ok := AnyAuthorization(config, "Basic");
  }

  method ApiKeyHandler(config: HttpConfig, scheme: Scheme) returns (ok: bool)
    requires scheme.ApiKeyQuery? || scheme.ApiKeyHeader? || scheme.ApiKeyCookie?
    modifies config
    ensures Verdict(config.Value(), ok) == Handled(old(config.Value()), scheme, None)
  {
    var present := match scheme
      case ApiKeyQuery(name) => Has(config.query, name)
      case ApiKeyHeader(name) => Has(config.headers, name)
      case ApiKeyCookie(name) => name in config.cookies;
    if present {
      return true;
    }
    if config.apiKey.None? {
      return false;
    }
    var key := config.apiKey.value;
    match scheme {
      case ApiKeyQuery(name) => config.query := Inserted(config.query, name, key);
      case ApiKeyHeader(name) => config.headers := Inserted(config.headers, name, key);
      case ApiKeyCookie(name) => config.cookies := config.cookies[name := key];
    }
    ok := true;
  }

  /** The handler registered for the scheme's type. */
  method Satisfy(config: HttpConfig, scheme: Scheme, token: Option<string>) returns (ok: bool)
    modifies config
    ensures Verdict(config.Value(), ok) == Handled(old(config.Value()), scheme, token)
  {
    match scheme {
      case Basic => ok := HttpBasicHandler(config);
      case BearerToken => ok := AnyAuthorization(config, "Bearer");
      case OAuth2 =>
        if config.oauth2.None? || token.None? {
          return false;
        }
        config.headers := Inserted(config.headers, AUTHORIZATION, "Bearer " + token.value);
        ok := true;
      case _ => ok := ApiKeyHandler(config, scheme);
    }
  }

  /** `satisfySecurity`; false stands for the exception it throws. */
  method SatisfySecurity(alts: seq<Alternative>, config: HttpConfig, tokens: Tokens) returns (ok: bool)
    modifies config
    ensures Verdict(config.Value(), ok) == Evaluated(old(config.Value()), alts, tokens)
  {
    if alts == [] {
      return true;
    }
    ghost var goal := AnyHandled(config.Value(), alts, 0, tokens);
    var anyAlternativeMatched := false;
    var i := 0;
    while i < |alts|
      invariant 0 <= i <= |alts|
      invariant AnyHandled(config.Value(), alts, i, tokens) == goal
    {
      var matched := true;
      ghost var altGoal := AllHandled(config.Value(), alts[i], i, 0, tokens);
      var j := 0;
      while j < |alts[i]|
        invariant 0 <= j <= |alts[i]| && matched
        invariant AllHandled(config.Value(), alts[i], i, j, tokens) == altGoal
      {
        var satisfied := Satisfy(config, alts[i][j], tokens(i, j));
        if !satisfied {
          matched := false;
          break;
        }
        j := j + 1;
      }
      assert Verdict(config.Value(), matched) == altGoal;
      if matched {
        anyAlternativeMatched := true;
        break;
      }
      i := i + 1;
    }
    ok := anyAlternativeMatched;
  }

  // ---- What the requirements mean ----

  /** A scheme the configuration meets as it stands. */
  ghost predicate Meets(c: Config, scheme: Scheme) {
    match scheme
    case Basic => c.auth.Some? || Presents(c, "Basic")
    case BearerToken => Presents(c, "Bearer")
    case ApiKeyQuery(name) => Has(c.query, name) || c.apiKey.Some?
    case ApiKeyHeader(name) => Has(c.headers, name) || c.apiKey.Some?
    case ApiKeyCookie(name) => name in c.cookies || c.apiKey.Some?
    case OAuth2 => false
  }

  ghost predicate MeetsAll(c: Config, alt: Alternative) {
    forall scheme <- alt :: Meets(c, scheme)
  }

  /** The disjunctive normal form, on the configuration before anything was inserted. */
  ghost predicate Dnf(c: Config, alts: seq<Alternative>) {
    alts == [] || exists alt <- alts :: MeetsAll(c, alt)
  }

  ghost predicate NoOAuth2(alts: seq<Alternative>) {
    forall alt <- alts :: OAuth2 !in alt
  }

  ghost predicate NoAuthorizationKey(alts: seq<Alternative>) {
    forall alt <- alts :: ApiKeyHeader(AUTHORIZATION) !in alt
  }

  /** The API key, inserted as an Authorization header, would pass for a credential the configuration lacks. */
  predicate Injectable(c: Config) {
    && c.apiKey.Some? && !Has(c.headers, AUTHORIZATION)
    && ((IsCredential(c.apiKey.value, "Basic") && c.auth.None?) || IsCredential(c.apiKey.value, "Bearer"))
  }

  /**
   * What the handlers may have made of `c`: the API key under some names that were missing, and
   * under Authorization only if `key`.
   */
  ghost predicate Filled(c: Config, d: Config, key: bool) {
    && d.auth == c.auth && d.apiKey == c.apiKey
    && (forall name :: Has(d.query, name) ==> Has(c.query, name) || c.apiKey.Some?)
    && (forall name :: Has(c.query, name) ==> Has(d.query, name))
    && (forall name :: Has(d.headers, name) ==> Has(c.headers, name) || c.apiKey.Some?)
    && (forall name :: Has(c.headers, name) ==> Has(d.headers, name))
    && (forall name :: name in d.cookies ==> name in c.cookies || c.apiKey.Some?)
    && (forall name :: name in c.cookies ==> name in d.cookies)
    && (Values(d.headers, AUTHORIZATION) == Values(c.headers, AUTHORIZATION)
        || (key && c.apiKey.Some? && !Has(c.headers, AUTHORIZATION) && Values(d.headers, AUTHORIZATION) == [c.apiKey.value]))
  }

  lemma FilledHandled(c: Config, d: Config, key: bool, scheme: Scheme, token: Option<string>)
    requires Filled(c, d, key) && scheme != OAuth2
    requires key || scheme != ApiKeyHeader(AUTHORIZATION)
    ensures Filled(c, Handled(d, scheme, token).config, key)
    ensures Handled(d, scheme, token).ok <==> Meets(d, scheme)
  {
  }

  lemma FilledMeets(c: Config, d: Config, key: bool, scheme: Scheme)
    requires Filled(c, d, key) && (key ==> !Injectable(c))
    ensures Meets(d, scheme) <==> Meets(c, scheme)
  {
  }

  lemma {:induction false} AllDecided(c: Config, d: Config, key: bool, alt: Alternative, i: nat, j: nat, tokens: Tokens)
    requires Filled(c, d, key) && j <= |alt| && OAuth2 !in alt && (key ==> !Injectable(c))
    requires key || ApiKeyHeader(AUTHORIZATION) !in alt
    ensures var v := AllHandled(d, alt, i, j, tokens);
      Filled(c, v.config, key) && (v.ok <==> forall k :: j <= k < |alt| ==> Meets(c, alt[k]))
    decreases |alt| - j
  {
    if j < |alt| {
      var scheme, token := alt[j], tokens(i, j);
      FilledHandled(c, d, key, scheme, token);
      FilledMeets(c, d, key, scheme);
      AllDecided(c, Handled(d, scheme, token).config, key, alt, i, j + 1, tokens);
    }
  }

  lemma {:induction false} AnyDecided(c: Config, d: Config, key: bool, alts: seq<Alternative>, i: nat, tokens: Tokens)
    requires Filled(c, d, key) && i <= |alts| && NoOAuth2(alts) && (key ==> !Injectable(c))
    requires key || NoAuthorizationKey(alts)
    ensures AnyHandled(d, alts, i, tokens).ok <==> exists k :: i <= k < |alts| && MeetsAll(c, alts[k])
    decreases |alts| - i
  {
    if i < |alts| {
      var v := AllHandled(d, alts[i], i, 0, tokens);
      AllDecided(c, d, key, alts[i], i, 0, tokens);
      assert v.ok <==> MeetsAll(c, alts[i]);
      if !v.ok {
        AnyDecided(c, v.config, key, alts, i + 1, tokens);
      }
    }
  }

  /**
   * The evaluation decides the normal form although failed alternatives leave their insertions
   * behind, if no header API key is named Authorization or the API key cannot pass for a credential.
   */
  lemma DecidesDnf(c: Config, alts: seq<Alternative>, tokens: Tokens)
    requires NoOAuth2(alts) && (NoAuthorizationKey(alts) || !Injectable(c))
    ensures Evaluated(c, alts, tokens).ok <==> Dnf(c, alts)
  {
    AnyDecided(c, c, !Injectable(c), alts, 0, tokens);
  }

  lemma InjectedIsPresented(c: Config, value: string, name: string)
    requires !Has(c.headers, AUTHORIZATION)
    ensures Presents(c.(headers := Inserted(c.headers, AUTHORIZATION, value)), name) <==> IsCredential(value, name)
    ensures !Presents(c, name)
  {
    var d := c.(headers := Inserted(c.headers, AUTHORIZATION, value));
    assert Values(d.headers, AUTHORIZATION) == [value];
    assert value in [value];
  }

  /** Two schemes in a row that the evaluation lets pass, and the normal form does not. */
  lemma InjectableMisleads(c: Config, tokens: Tokens)
    requires Injectable(c)
    ensures exists alts :: NoOAuth2(alts) && Evaluated(c, alts, tokens).ok && !Dnf(c, alts)
  {
    var key := c.apiKey.value;
    var second := if IsCredential(key, "Basic") && c.auth.None? then Basic else BearerToken;
    var alt := [ApiKeyHeader(AUTHORIZATION), second];
    InjectedIsPresented(c, key, "Basic");
    InjectedIsPresented(c, key, "Bearer");
    var d := c.(headers := Inserted(c.headers, AUTHORIZATION, key));
    assert Handled(c, alt[0], tokens(0, 0)) == Verdict(d, true);
    assert Handled(d, second, tokens(0, 1)) == Verdict(d, true);
    assert AllHandled(d, alt, 0, 2, tokens).ok;
    assert AllHandled(c, alt, 0, 0, tokens).ok;
    var alts := [alt];
    assert alts[0] == alt;
    assert second in alt && !Meets(c, second);
    assert Evaluated(c, alts, tokens).ok;
    assert !Dnf(c, alts);
    assert NoOAuth2(alts);
  }

  /** For which configurations the evaluation decides the normal form, whatever is required. */
  lemma DecidesDnfExactly(c: Config, tokens: Tokens)
    ensures (forall alts :: NoOAuth2(alts) ==> (Evaluated(c, alts, tokens).ok <==> Dnf(c, alts))) <==> !Injectable(c)
  {
    if Injectable(c) {
      InjectableMisleads(c, tokens);
    } else {
      forall alts | NoOAuth2(alts) ensures Evaluated(c, alts, tokens).ok <==> Dnf(c, alts) {
        DecidesDnf(c, alts, tokens);
      }
    }
  }

  // ---- Nothing is lost, and what is accepted stays true ----

  ghost predicate Grows(c: Config, d: Config) {
    && d.auth == c.auth && d.proxy == c.proxy && d.apiKey == c.apiKey && d.oauth2 == c.oauth2
    && (forall name :: Values(c.headers, name) <= Values(d.headers, name))
    && (forall name :: Values(c.query, name) <= Values(d.query, name))
    && (forall name :: name in c.cookies ==> name in d.cookies && d.cookies[name] == c.cookies[name])
  }

  /** The scheme's credentials are in the configuration, to be sent. */
  ghost predicate Holds(c: Config, scheme: Scheme, token: Option<string>) {
    match scheme
    case Basic => c.auth.Some? || Presents(c, "Basic")
    case BearerToken => Presents(c, "Bearer")
    case ApiKeyQuery(name) => Has(c.query, name)
    case ApiKeyHeader(name) => Has(c.headers, name)
    case ApiKeyCookie(name) => name in c.cookies
    case OAuth2 => c.oauth2.Some? && token.Some? && "Bearer " + token.value in Values(c.headers, "Authorization")
  }

  lemma HandledGrows(c: Config, scheme: Scheme, token: Option<string>)
    ensures Grows(c, Handled(c, scheme, token).config)
  {
  }

  lemma HandledHolds(c: Config, scheme: Scheme, token: Option<string>)
    requires Handled(c, scheme, token).ok
    ensures Holds(Handled(c, scheme, token).config, scheme, token)
  {
    if scheme.OAuth2? {
      ValuesInserted(c.headers, AUTHORIZATION, "Bearer " + token.value, AUTHORIZATION);
    }
  }

  lemma GrowsTransitive(c: Config, d: Config, e: Config)
    requires Grows(c, d) && Grows(d, e)
    ensures Grows(c, e)
  {
  }

  lemma PresentsKept(c: Config, d: Config, name: string)
    requires Grows(c, d) && Presents(c, name)
    ensures Presents(d, name)
  {
    var v :| v in Values(c.headers, AUTHORIZATION) && IsCredential(v, name);
    assert v in Values(d.headers, AUTHORIZATION);
  }

  lemma HoldsKept(c: Config, d: Config, scheme: Scheme, token: Option<string>)
    requires Grows(c, d) && Holds(c, scheme, token)
    ensures Holds(d, scheme, token)
  {
    match scheme
    case Basic => if c.auth.None? { PresentsKept(c, d, "Basic"); }
    case BearerToken => PresentsKept(c, d, "Bearer");
    case _ =>
  }

  ghost predicate HoldsUpTo(c: Config, alt: Alternative, i: nat, n: nat, tokens: Tokens) {
    forall j :: 0 <= j < n && j < |alt| ==> Holds(c, alt[j], tokens(i, j))
  }

  lemma HoldsOneMore(c: Config, alt: Alternative, i: nat, j: nat, tokens: Tokens)
    requires j < |alt| && HoldsUpTo(c, alt, i, j, tokens) && Handled(c, alt[j], tokens(i, j)).ok
    ensures HoldsUpTo(Handled(c, alt[j], tokens(i, j)).config, alt, i, j + 1, tokens)
  {
    var d := Handled(c, alt[j], tokens(i, j)).config;
    HandledGrows(c, alt[j], tokens(i, j));
    HandledHolds(c, alt[j], tokens(i, j));
    forall k | 0 <= k < j ensures Holds(d, alt[k], tokens(i, k)) {
      HoldsKept(c, d, alt[k], tokens(i, k));
    }
  }

  lemma {:induction false} AllHold(c: Config, alt: Alternative, i: nat, j: nat, tokens: Tokens)
    requires j <= |alt| && HoldsUpTo(c, alt, i, j, tokens)
    ensures var v := AllHandled(c, alt, i, j, tokens);
      Grows(c, v.config) && (v.ok ==> HoldsUpTo(v.config, alt, i, |alt|, tokens))
    decreases |alt| - j
  {
    if j < |alt| {
      var v := Handled(c, alt[j], tokens(i, j));
      HandledGrows(c, alt[j], tokens(i, j));
      if v.ok {
        HoldsOneMore(c, alt, i, j, tokens);
        AllHold(v.config, alt, i, j + 1, tokens);
        GrowsTransitive(c, v.config, AllHandled(c, alt, i, j, tokens).config);
      }
    }
  }

  /** All schemes of some alternative hold, each with the token got for it. */
  ghost predicate SomeHolds(c: Config, alts: seq<Alternative>, tokens: Tokens) {
    exists i :: 0 <= i < |alts| && HoldsUpTo(c, alts[i], i, |alts[i]|, tokens)
  }

  lemma {:induction false} AnyHolds(c: Config, alts: seq<Alternative>, i: nat, tokens: Tokens)
    requires i <= |alts|
    ensures var v := AnyHandled(c, alts, i, tokens); Grows(c, v.config) && (v.ok ==> SomeHolds(v.config, alts, tokens))
    decreases |alts| - i
  {
    if i < |alts| {
      var v := AllHandled(c, alts[i], i, 0, tokens);
      AllHold(c, alts[i], i, 0, tokens);
      if !v.ok {
        AnyHolds(v.config, alts, i + 1, tokens);
        GrowsTransitive(c, v.config, AnyHandled(c, alts, i, tokens).config);
      }
    }
  }

  /**
   * The configuration only gains headers, query pairs and cookies, and if the evaluation succeeds,
   * all schemes of some alternative hold in the configuration it leaves, OAuth2 with the token got for it there.
   */
  lemma SatisfiedIsStable(c: Config, alts: seq<Alternative>, tokens: Tokens)
    ensures var v := Evaluated(c, alts, tokens);
      Grows(c, v.config) && (v.ok ==> alts == [] || SomeHolds(v.config, alts, tokens))
  {
    if alts != [] {
      AnyHolds(c, alts, 0, tokens);
    }
  }

  // ---- What is gained ----

  ghost predicate Asked(alts: seq<Alternative>, scheme: Scheme) {
    exists i :: 0 <= i < |alts| && scheme in alts[i]
  }

  /** The header for a token got where OAuth2 is asked for. */
  ghost predicate IsBearer(value: string, alts: seq<Alternative>, tokens: Tokens) {
    exists i, j :: 0 <= i < |alts| && 0 <= j < |alts[i]| && BearerAt(value, alts[i][j], tokens(i, j))
  }

  predicate BearerAt(value: string, scheme: Scheme, token: Option<string>) {
    scheme == OAuth2 && token.Some? && value == "Bearer " + token.value
  }

  /** Nothing, or one copy of the API key where there was nothing. */
  ghost predicate GainedKey(before: seq<string>, after: seq<string>, apiKey: Option<string>, asked: bool) {
    after == before || (asked && before == [] && apiKey.Some? && after == [apiKey.value])
  }

  /** Behind that, any number of tokens. */
  ghost predicate GainedTokens(before: seq<string>, after: seq<string>, apiKey: Option<string>, asked: bool,
                               alts: seq<Alternative>, tokens: Tokens) {
    exists n :: 0 <= n <= |after| && GainedKey(before, after[..n], apiKey, asked)
                && forall value <- after[n..] :: IsBearer(value, alts, tokens)
  }

  ghost predicate GainedQuery(c: Config, d: Config, alts: seq<Alternative>) {
    forall name :: GainedKey(Values(c.query, name), Values(d.query, name), c.apiKey, Asked(alts, ApiKeyQuery(name)))
  }

  ghost predicate GainedHeaders(c: Config, d: Config, alts: seq<Alternative>) {
    forall name :: name != "Authorization" ==>
      GainedKey(Values(c.headers, name), Values(d.headers, name), c.apiKey, Asked(alts, ApiKeyHeader(name)))
  }

  ghost predicate GainedAuthorization(c: Config, d: Config, alts: seq<Alternative>, tokens: Tokens) {
    GainedTokens(Values(c.headers, "Authorization"), Values(d.headers, "Authorization"), c.apiKey,
                 Asked(alts, ApiKeyHeader("Authorization")), alts, tokens)
  }

  ghost predicate GainedCookies(c: Config, d: Config, alts: seq<Alternative>) {
    forall name :: GainedKey(Cookie(c, name), Cookie(d, name), c.apiKey, Asked(alts, ApiKeyCookie(name)))
  }

  ghost predicate Gained(c: Config, d: Config, alts: seq<Alternative>, tokens: Tokens) {
    && d.auth == c.auth && d.proxy == c.proxy && d.apiKey == c.apiKey && d.oauth2 == c.oauth2
    && GainedQuery(c, d, alts) && GainedHeaders(c, d, alts) && GainedCookies(c, d, alts)
    && GainedAuthorization(c, d, alts, tokens)
  }

  function Cookie(c: Config, name: string): seq<string> {
    if name in c.cookies then [c.cookies[name]] else []
  }

  lemma TokensWithKey(before: seq<string>, after: seq<string>, apiKey: Option<string>, alts: seq<Alternative>,
                      tokens: Tokens, key: string)
    requires GainedTokens(before, after, apiKey, true, alts, tokens) && after == [] && apiKey == Some(key)
    ensures GainedTokens(before, after + [key], apiKey, true, alts, tokens)
  {
    assert (after + [key])[..1] == [key] && (after + [key])[1..] == [];
  }

  lemma TokensWithToken(before: seq<string>, after: seq<string>, apiKey: Option<string>, asked: bool,
                        alts: seq<Alternative>, tokens: Tokens, value: string)
    requires GainedTokens(before, after, apiKey, asked, alts, tokens) && IsBearer(value, alts, tokens)
    ensures GainedTokens(before, after + [value], apiKey, asked, alts, tokens)
  {
    var n :| 0 <= n <= |after| && GainedKey(before, after[..n], apiKey, asked)
             && forall value <- after[n..] :: IsBearer(value, alts, tokens);
    assert (after + [value])[..n] == after[..n] && (after + [value])[n..] == after[n..] + [value];
  }

  lemma QueryGains(c: Config, d: Config, alts: seq<Alternative>, name: string)
    requires GainedQuery(c, d, alts) && Asked(alts, ApiKeyQuery(name)) && !Has(d.query, name) && c.apiKey.Some?
    ensures GainedQuery(c, d.(query := Inserted(d.query, name, c.apiKey.value)), alts)
  {
    var d' := d.(query := Inserted(d.query, name, c.apiKey.value));
    forall n ensures GainedKey(Values(c.query, n), Values(d'.query, n), c.apiKey, Asked(alts, ApiKeyQuery(n))) {
      assert GainedKey(Values(c.query, n), Values(d.query, n), c.apiKey, Asked(alts, ApiKeyQuery(n)));
    }
  }

  lemma CookieGains(c: Config, d: Config, alts: seq<Alternative>, name: string)
    requires GainedCookies(c, d, alts) && Asked(alts, ApiKeyCookie(name)) && name !in d.cookies && c.apiKey.Some?
    ensures GainedCookies(c, d.(cookies := d.cookies[name := c.apiKey.value]), alts)
  {
    var d' := d.(cookies := d.cookies[name := c.apiKey.value]);
    forall n ensures GainedKey(Cookie(c, n), Cookie(d', n), c.apiKey, Asked(alts, ApiKeyCookie(n))) {
      assert GainedKey(Cookie(c, n), Cookie(d, n), c.apiKey, Asked(alts, ApiKeyCookie(n)));
    }
  }

  lemma HeaderGains(c: Config, d: Config, alts: seq<Alternative>, tokens: Tokens, name: string)
    requires GainedHeaders(c, d, alts) && GainedAuthorization(c, d, alts, tokens)
    requires Asked(alts, ApiKeyHeader(name)) && !Has(d.headers, name) && c.apiKey.Some?
    ensures var d' := d.(headers := Inserted(d.headers, name, c.apiKey.value));
      GainedHeaders(c, d', alts) && GainedAuthorization(c, d', alts, tokens)
  {
    var d' := d.(headers := Inserted(d.headers, name, c.apiKey.value));
    forall n | n != "Authorization"
      ensures GainedKey(Values(c.headers, n), Values(d'.headers, n), c.apiKey, Asked(alts, ApiKeyHeader(n)))
    {
      assert GainedKey(Values(c.headers, n), Values(d.headers, n), c.apiKey, Asked(alts, ApiKeyHeader(n)));
    }
    ValuesInserted(d.headers, name, c.apiKey.value, "Authorization");
    if name == "Authorization" {
      TokensWithKey(Values(c.headers, name), Values(d.headers, name), c.apiKey, alts, tokens, c.apiKey.value);
    }
  }

  lemma TokenGains(c: Config, d: Config, alts: seq<Alternative>, tokens: Tokens, value: string)
    requires GainedHeaders(c, d, alts) && GainedAuthorization(c, d, alts, tokens) && IsBearer(value, alts, tokens)
    ensures var d' := d.(headers := Inserted(d.headers, AUTHORIZATION, value));
      GainedHeaders(c, d', alts) && GainedAuthorization(c, d', alts, tokens)
  {
    ValuesInserted(d.headers, AUTHORIZATION, value, AUTHORIZATION);
    TokensWithToken(Values(c.headers, AUTHORIZATION), Values(d.headers, AUTHORIZATION), c.apiKey,
                    Asked(alts, ApiKeyHeader(AUTHORIZATION)), alts, tokens, value);
  }

  lemma HandledGains(c: Config, d: Config, alts: seq<Alternative>, i: nat, j: nat, tokens: Tokens)
    requires Gained(c, d, alts, tokens) && i < |alts| && j < |alts[i]|
    ensures Gained(c, Handled(d, alts[i][j], tokens(i, j)).config, alts, tokens)
  {
    var scheme, token := alts[i][j], tokens(i, j);
    assert Asked(alts, scheme);
    match scheme
    case ApiKeyQuery(name) => if !Has(d.query, name) && c.apiKey.Some? { QueryGains(c, d, alts, name); }
    case ApiKeyHeader(name) => if !Has(d.headers, name) && c.apiKey.Some? { HeaderGains(c, d, alts, tokens, name); }
    case ApiKeyCookie(name) => if name !in d.cookies && c.apiKey.Some? { CookieGains(c, d, alts, name); }
    case OAuth2 =>
      if c.oauth2.Some? && token.Some? {
        assert BearerAt("Bearer " + token.value, alts[i][j], tokens(i, j));
        TokenGains(c, d, alts, tokens, "Bearer " + token.value);
      }
    case _ =>
  }

  lemma {:induction false} AllGain(c: Config, d: Config, alts: seq<Alternative>, i: nat, j: nat, tokens: Tokens)
    requires Gained(c, d, alts, tokens) && i < |alts| && j <= |alts[i]|
    ensures Gained(c, AllHandled(d, alts[i], i, j, tokens).config, alts, tokens)
    decreases |alts[i]| - j
  {
    if j < |alts[i]| {
      HandledGains(c, d, alts, i, j, tokens);
      var v := Handled(d, alts[i][j], tokens(i, j));
      if v.ok {
        AllGain(c, v.config, alts, i, j + 1, tokens);
      }
    }
  }

  lemma {:induction false} AnyGains(c: Config, d: Config, alts: seq<Alternative>, i: nat, tokens: Tokens)
    requires Gained(c, d, alts, tokens) && i <= |alts|
    ensures Gained(c, AnyHandled(d, alts, i, tokens).config, alts, tokens)
    decreases |alts| - i
  {
    if i < |alts| {
      AllGain(c, d, alts, i, 0, tokens);
      var v := AllHandled(d, alts[i], i, 0, tokens);
      if !v.ok {
        AnyGains(c, v.config, alts, i + 1, tokens);
      }
    }
  }

  /**
   * What an evaluation adds, accepted or not: under each name of a query pair, header or cookie that was missing and
   * that some requirement asks for, at most one copy of the API key; and tokens, as Authorization headers.
   */
  lemma GainsKeyAndTokens(c: Config, alts: seq<Alternative>, tokens: Tokens)
    ensures Gained(c, Evaluated(c, alts, tokens).config, alts, tokens)
  {
    var own := Values(c.headers, "Authorization");
    assert own[..|own|] == own && own[|own|..] == [];
    assert Gained(c, c, alts, tokens);
    if alts != [] {
      AnyGains(c, c, alts, 0, tokens);
    }
  }

  // ---- What suffices ----

  /** What the configuration, and the token for OAuth2, have to offer before anything is inserted. */
  ghost predicate Available(c: Config, scheme: Scheme, token: Option<string>) {
    if scheme == OAuth2 then c.oauth2.Some? && token.Some? else Meets(c, scheme)
  }

  ghost predicate AvailableFrom(c: Config, alt: Alternative, i: nat, j: nat, tokens: Tokens) {
    forall k :: j <= k < |alt| ==> Available(c, alt[k], tokens(i, k))
  }

  lemma HandledAvailable(c: Config, d: Config, scheme: Scheme, token: Option<string>)
    requires Grows(c, d) && Available(c, scheme, token)
    ensures Handled(d, scheme, token).ok
  {
    match scheme
    case Basic => if c.auth.None? { PresentsKept(c, d, "Basic"); }
    case BearerToken => PresentsKept(c, d, "Bearer");
    case _ =>
  }

  lemma {:induction false} AllAvailable(c: Config, d: Config, alt: Alternative, i: nat, j: nat, tokens: Tokens)
    requires Grows(c, d) && j <= |alt| && AvailableFrom(c, alt, i, j, tokens)
    ensures AllHandled(d, alt, i, j, tokens).ok
    decreases |alt| - j
  {
    if j < |alt| {
      HandledAvailable(c, d, alt[j], tokens(i, j));
      var d' := Handled(d, alt[j], tokens(i, j)).config;
      HandledGrows(d, alt[j], tokens(i, j));
      GrowsTransitive(c, d, d');
      AllAvailable(c, d', alt, i, j + 1, tokens);
    }
  }

  lemma {:induction false} AnyAvailable(c: Config, d: Config, alts: seq<Alternative>, i: nat, k: nat, tokens: Tokens)
    requires Grows(c, d) && i <= k < |alts| && AvailableFrom(c, alts[k], k, 0, tokens)
    ensures AnyHandled(d, alts, i, tokens).ok
    decreases |alts| - i
  {
    var v := AllHandled(d, alts[i], i, 0, tokens);
    AllHold(d, alts[i], i, 0, tokens);
    GrowsTransitive(c, d, v.config);
    if i == k {
      AllAvailable(c, d, alts[i], i, 0, tokens);
    } else if !v.ok {
      AnyAvailable(c, v.config, alts, i + 1, k, tokens);
    }
  }

  /** An alternative that is available at the start is enough, with OAuth2 too, whatever comes before it. */
  lemma AvailableSuffices(c: Config, alts: seq<Alternative>, k: nat, tokens: Tokens)
    requires k < |alts| && AvailableFrom(c, alts[k], k, 0, tokens)
    ensures Evaluated(c, alts, tokens).ok
  {
    AnyAvailable(c, c, alts, 0, k, tokens);
  }

  // ---- Credentials ----

  /** The same character, or a letter and its capital. */
  predicate SameButCase(a: char, b: char) {
    a == b || ('A' <= a <= 'Z' && b as int == a as int + 32) || ('A' <= b <= 'Z' && a as int == b as int + 32)
  }

  ghost predicate Reads(value: string, name: string, rest: string, word: string) {
    && value == word + " " + rest && rest != "" && |word| == |name|
    && (forall k :: 0 <= k < |name| ==> SameButCase(word[k], name[k]))
    && '\n' !in rest && '\r' !in rest
  }

  /** A credential is the name in any case, one blank, and something behind it on the same line. */
  lemma CredentialExactly(value: string, name: string)
    ensures IsCredential(value, name) <==> exists word, rest :: Reads(value, name, rest, word)
  {
    if IsCredential(value, name) {
      var word, rest := value[..|name|], value[|name| + 1..];
      assert value == word + " " + rest;
      forall k | 0 <= k < |name| ensures SameButCase(word[k], name[k]) {
        assert Lower(value[k]) == Lower(name[k]);
      }
      assert Reads(value, name, rest, word);
    }
    if exists word, rest :: Reads(value, name, rest, word) {
      var word, rest :| Reads(value, name, rest, word);
      forall i | 0 <= i < |name| ensures Lower(value[i]) == Lower(name[i]) {
        assert SameButCase(word[i], name[i]) && value[i] == word[i];
      }
      forall i | |name| < i < |value| ensures value[i] != '\n' && value[i] != '\r' {
        assert value[i] == rest[i - |name| - 1];
      }
    }
  }

  /** Any of the Authorization headers will do. */
  lemma PresentsExactly(c: Config, name: string)
    ensures Presents(c, name)
       <==> exists value, word, rest :: value in Values(c.headers, "Authorization") && Reads(value, name, rest, word)
  {
    forall value | value in Values(c.headers, "Authorization")
      ensures IsCredential(value, name) <==> exists word, rest :: Reads(value, name, rest, word)
    {
      CredentialExactly(value, name);
    }
  }

  // ---- With the tokens of the OAuth2 handler ----

  /** The access token the handler presents for a request; the cache it works on has no empty ones. */
  ghost predicate IsPresented(token: string) {
    exists cache, request, now, env :: TokenCache.NoEmptyTokens(cache) && Obtains(cache, request, now, env, token)
  }

  ghost predicate Obtains(cache: TokenCache.Cache, request: TokenCache.Request, now: int, env: TokenHandler.Environment,
                          token: string) {
    var t := TokenHandler.Obtained(cache, request, now, env);
    t.Some? && t.value.accessToken == token
  }

  ghost predicate FromHandler(tokens: Tokens) {
    forall i, j :: tokens(i, j).Some? ==> IsPresented(tokens(i, j).value)
  }

  lemma PresentedIsReal(token: string)
    requires IsPresented(token)
    ensures token != ""
  {
    var cache, request, now, env :| TokenCache.NoEmptyTokens(cache) && Obtains(cache, request, now, env, token);
    TokenHandler.ObtainedIsReal(cache, request, now, env);
  }

  /** So with the handler's tokens, whatever the endpoint answers, an accepted OAuth2 scheme is a Bearer credential. */
  lemma SatisfiedWithHandler(c: Config, alts: seq<Alternative>, tokens: Tokens) returns (i: nat)
    requires FromHandler(tokens) && alts != [] && Evaluated(c, alts, tokens).ok
    ensures i < |alts| && HoldsUpTo(Evaluated(c, alts, tokens).config, alts[i], i, |alts[i]|, tokens)
    ensures forall j :: 0 <= j < |alts[i]| && alts[i][j] == OAuth2 ==> tokens(i, j).Some? && tokens(i, j).value != ""
  {
    SatisfiedIsStable(c, alts, tokens);
    var d := Evaluated(c, alts, tokens).config;
    i :| 0 <= i < |alts| && HoldsUpTo(d, alts[i], i, |alts[i]|, tokens);
    forall j | 0 <= j < |alts[i]| && alts[i][j] == OAuth2 ensures tokens(i, j).Some? && tokens(i, j).value != "" {
      assert Holds(d, alts[i][j], tokens(i, j));
      PresentedIsReal(tokens(i, j).value);
    }
  }
}
