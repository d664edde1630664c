/** `satisfy` and `requestToken` as they are called, each call being a run of the protocol of `TokenCache`. */
module TokenHandler {
  import opened Text
  import opened TokenCache

  /** When a call reads the clock, and what the token endpoint answers if it is asked. */
  datatype Environment = Environment(looked: int, rechecked: int, refreshed: int, refreshResponse: Response,
                                     minted: int, mintResponse: Response)

  predicate Monotone(now: int, env: Environment) {
    now <= env.looked <= env.rechecked <= env.refreshed <= env.minted
  }

  /** The token a call for `request` ends up with: a valid cached one, else a refreshed one, else a minted one. */
  function Obtained(cache: Cache, request: Request, now: int, env: Environment): Option<MintedToken> {
    var current := Lookup(cache, request.key);
    if current.Some? && now < current.value.expiresAt then current
    else if RefreshTokenOf(current) != "" && IsAccepted(env.refreshResponse) then
      Some(TokenOf(Refresh(request.refreshUrl, current.value.refreshToken), env.refreshResponse.body.value, env.refreshed))
    else if IsAccepted(env.mintResponse) then
      Some(TokenOf(MintGrant(request), env.mintResponse.body.value, env.minted))
    else None
  }

  function Store(cache: Cache, key: TokenKey, token: Option<MintedToken>): Cache {
    if token.Some? then cache[key := token.value] else cache
  }

  function Insert(headers: seq<string>, token: Option<MintedToken>): seq<string> {
    if token.Some? then headers + ["Bearer " + token.value.accessToken] else headers
  }

  /** A reply that `requestToken` makes a token of. */
  predicate Granted(response: Response, token: string) {
    && response.Response? && 200 <= response.status <= 299
    && response.body.Some? && response.body.value.accessToken == Some(token) && token != ""
  }

  /** Whether a call succeeds, with which token, and what is kept of it: case by case. */
  lemma ObtainedExactly(cache: Cache, request: Request, now: int, env: Environment)
    ensures var key, token := request.key, Obtained(cache, request, now, env);
      if key in cache && now < cache[key].expiresAt then token == Some(cache[key])
      else if key in cache && cache[key].refreshToken != "" && exists t :: Granted(env.refreshResponse, t) then
        var reply := env.refreshResponse.body.value;
        && token.Some? && Granted(env.refreshResponse, token.value.accessToken)
        && token.value.refreshToken == reply.refreshToken.GetOr(cache[key].refreshToken)
        && token.value.expiresAt == env.refreshed + reply.expiresIn.GetOr(3600) - 30
      else
        && (token.Some? <==> exists t :: Granted(env.mintResponse, t))
        && (token.Some? ==>
            var reply := env.mintResponse.body.value;
            && Granted(env.mintResponse, token.value.accessToken)
            && token.value.refreshToken == reply.refreshToken.GetOr("")
            && token.value.expiresAt == env.minted + reply.expiresIn.GetOr(3600) - 30)
  {
    AcceptedGrants(env.refreshResponse);
    AcceptedGrants(env.mintResponse);
  }

  lemma AcceptedGrants(response: Response)
    ensures IsAccepted(response) <==> exists t :: Granted(response, t)
    ensures IsAccepted(response) ==> Granted(response, response.body.value.accessToken.GetOr(""))
  {
    if IsAccepted(response) {
      assert Granted(response, response.body.value.accessToken.value);
    }
  }

  /** From a cache without empty tokens a call obtains, and stores, no empty one. */
  lemma ObtainedIsReal(cache: Cache, request: Request, now: int, env: Environment)
    requires NoEmptyTokens(cache)
    ensures var token := Obtained(cache, request, now, env);
      && NoEmptyTokens(Store(cache, request.key, token))
      && (token.Some? ==> token.value.accessToken != "")
  {
  }

  ghost predicate Reaches(s: State, s': State) {
    exists steps :: Run(s, steps) == Some(s')
  }

  lemma ReachesItself(s: State)
    ensures Reaches(s, s)
  {
    assert Run(s, []) == Some(s);
  }

  lemma {:induction false} RunOneMore(s: State, steps: seq<Step>, s': State, step: Step)
    requires Run(s, steps) == Some(s') && Enabled(s', step)
    ensures Run(s, steps + [step]) == Some(Do(s', step))
    decreases |steps|
  {
    if steps == [] {
      assert [] + [step] == [step] && [step][1..] == [];
    } else {
      RunOneMore(Do(s, steps[0]), steps[1..], s', step);
      assert (steps + [step])[1..] == steps[1..] + [step];
    }
  }

  /** One step of the protocol, as ghost code beside the code that takes it. */
  lemma Take(start: State, s: State, step: Step) returns (s': State)
    requires Reaches(start, s) && Enabled(s, step)
    ensures s' == Do(s, step) && Reaches(start, s')
  {
    var steps :| Run(start, steps) == Some(s);
    RunOneMore(start, steps, s, step);
    s' := Do(s, step);
  }

  lemma WaitUntil(start: State, s: State, now: int) returns (s': State)
    requires Reaches(start, s) && s.clock <= now
    ensures s' == s.(clock := now) && Reaches(start, s')
  {
    s' := Take(start, s, Tick(now - s.clock));
  }

  class OAuth2ClientCredentialsHandler {
    var cache: Cache

    /** `Mint` and `Refresh` say what is sent; the response arrives at `now`. */
    method RequestToken(grant: Grant, response: Response, now: int) returns (r: Option<MintedToken>)
      ensures r.Some? <==> response.Response? && 200 <= response.status <= 299 && response.body.Some?
                           && response.body.value.accessToken.GetOr("") != ""
      ensures r.Some? ==> var reply, token := response.body.value, r.value;
        && token.accessToken == reply.accessToken.value
        && token.expiresAt == now + reply.expiresIn.GetOr(3600) - 30
        && token.refreshToken == if reply.refreshToken.Some? then reply.refreshToken.value
                                 else if grant.Refresh? then grant.token else ""
      ensures r == if IsAccepted(response) then Some(TokenOf(grant, response.body.value, now)) else None
    {
      if response.NoResponse? || response.status < 200 || response.status >= 300 || response.body.None? {
        return None;
      }
      var reply := response.body.value;
      var accessToken := reply.accessToken.GetOr("");
      if accessToken == "" {
        return None;
      }
      var expiresIn := 3600;
      if reply.expiresIn.Some? {
        expiresIn := reply.expiresIn.value;
      }
      var refreshToken := "";
      if reply.refreshToken.Some? {
        refreshToken := reply.refreshToken.value;
      } else if grant.Refresh? && grant.token != "" {
        refreshToken := grant.token;
      }
      r := Some(MintedToken(accessToken, refreshToken, now + (expiresIn - 30)));
    }

    /** Asks the endpoint and stores what it grants. */
    method Ask(request: Request, grant: Grant, response: Response, at: int, headers: seq<string>,
               ghost start: State, ghost before: State, ghost tid: nat)
      returns (token: Option<MintedToken>, ghost after: State)
      requires Reaches(start, before) && before.cache == cache && before.clock <= at && tid < |before.threads|
      requires var t := before.threads[tid]; t.phase == Ready(grant) && t.request == request && t.headers == headers
      modifies this`cache
      ensures token == if IsAccepted(response) then Some(TokenOf(grant, response.body.value, at)) else None
      ensures cache == Store(old(cache), request.key, token)
      ensures Reaches(start, after) && after.cache == cache && after.clock == at && tid < |after.threads|
      ensures after.writer == before.writer && after.readers == before.readers
      ensures var t := before.threads[tid];
        after.threads[tid] == t.(phase := if token.Some? then Leaving(true) else AfterFailure(t, grant),
                                 headers := Insert(headers, token))
    {
      after := Take(start, before, Send(tid));
      after := WaitUntil(start, after, at);
      after := Take(start, after, Answer(tid, response));
      token := RequestToken(grant, response, at);
      if token.Some? {
        cache := cache[request.key := token.value];
      }
    }

    /** The part of a call under the exclusive lock; `before` is where the protocol stands, holding it. */
    method RefreshOrMint(request: Request, headers: seq<string>, env: Environment,
                         ghost start: State, ghost before: State, ghost tid: nat)
      returns (token: Option<MintedToken>, ghost after: State)
      requires Reaches(start, before) && before.cache == cache && before.clock == env.rechecked
      requires env.rechecked <= env.refreshed <= env.minted && tid < |before.threads|
      requires before.threads[tid].phase == HoldExclusive
      requires before.threads[tid].request == request && before.threads[tid].headers == headers
      modifies this`cache
      ensures token == Obtained(old(cache), request, env.rechecked, env) && cache == Store(old(cache), request.key, token)
      ensures Reaches(start, after) && after.cache == cache && tid < |after.threads|
      ensures after.threads[tid] == before.threads[tid].(phase := Leaving(token.Some?), headers := Insert(headers, token))
      ensures after.writer == before.writer && after.readers == before.readers
    {
      var key := request.key;
      after := Take(start, before, Recheck(tid));
      if key in cache && env.rechecked < cache[key].expiresAt {
        return Some(cache[key]), after;
      }
      if key in cache && cache[key].refreshToken != "" {
        token, after := Ask(request, Refresh(request.refreshUrl, cache[key].refreshToken), env.refreshResponse,
                            env.refreshed, headers, start, after, tid);
        if token.Some? {
          return token, after;
        }
      }
      token, after := Ask(request, MintGrant(request), env.mintResponse, env.minted, headers, start, after, tid);
    }

    /** The part of a call under the shared lock. */
    method TryCached(request: Request, headers: seq<string>, env: Environment,
                     ghost start: State, ghost before: State, ghost tid: nat)
      returns (hit: bool, ghost after: State)
      requires Reaches(start, before) && before.cache == cache && before.clock <= env.looked && before.writer == None
      requires tid < |before.threads| && tid !in before.readers
      requires var t := before.threads[tid]; t.phase == WantShared && t.request == request && t.headers == headers
      ensures hit <==> request.key in cache && env.looked < cache[request.key].expiresAt
      ensures Reaches(start, after) && after.cache == cache && after.clock == env.looked && tid < |after.threads|
      ensures after.writer == None && after.readers == before.readers
      ensures after.threads[tid] == before.threads[tid].(
        phase := if hit then Returned(true) else WantExclusive,
        headers := if hit then headers + ["Bearer " + cache[request.key].accessToken] else headers)
    {
      after := Take(start, before, LockShared(tid));
      after := WaitUntil(start, after, env.looked);
      after := Take(start, after, Look(tid));
      after := Take(start, after, UnlockShared(tid));
      hit := request.key in cache && env.looked < cache[request.key].expiresAt;
    }

    /** A call that goes on: first under the shared lock, then, unless that hits, under the exclusive one. */
    method Serve(request: Request, headers: seq<string>, env: Environment,
                 ghost start: State, ghost before: State, ghost tid: nat)
      returns (token: Option<MintedToken>, ghost after: State)
      requires Reaches(start, before) && before.cache == cache && before.writer == None && before.readers == {}
      requires Monotone(before.clock, env) && tid < |before.threads|
      requires var t := before.threads[tid]; t.phase == WantShared && t.request == request && t.headers == headers
      modifies this`cache
      ensures token == Obtained(old(cache), request, env.looked, env) && cache == Store(old(cache), request.key, token)
      ensures Reaches(start, after) && after.cache == cache && tid < |after.threads|
      ensures after.threads[tid].phase == Returned(token.Some?)
      ensures after.threads[tid].headers == Insert(headers, token) && after.threads[tid].entry == before.threads[tid].entry
      ensures after.writer == None && after.readers == {}
    {
      var hit;
      hit, after := TryCached(request, headers, env, start, before, tid);
      if hit {
        return Some(cache[request.key]), after;
      }
      after := Take(start, after, LockExclusive(tid));
      after := WaitUntil(start, after, env.rechecked);
      token, after := RefreshOrMint(request, headers, env, start, after, tid);
      after := Take(start, after, UnlockExclusive(tid));
    }

    /**
     * One call while nobody holds the lock. It takes the handler and the calling thread along a run
     * of the protocol, so what is proved of every run holds of every call.
     */
    method Satisfy(call: Call, headers: seq<string>, env: Environment, ghost start: State, ghost tid: nat)
      returns (ok: bool, out: seq<string>, ghost after: State)
      requires start.cache == cache && start.writer == None && start.readers == {}
      requires tid < |start.threads| && start.threads[tid].phase.Returned? && Monotone(start.clock, env)
      modifies this`cache
      ensures Reaches(start, after) && after.cache == cache && tid < |after.threads|
      ensures after.threads[tid].phase == Returned(ok)
      ensures after.threads[tid].headers == out && after.threads[tid].entry == headers
      ensures after.writer == None && after.readers == {}
      ensures var r := Resolve(call);
        var token := if r.Some? then Obtained(old(cache), r.value, env.looked, env) else None;
        && ok == token.Some? && out == Insert(headers, token)
        && cache == if r.Some? then Store(old(cache), r.value.key, token) else old(cache)
    {
      ReachesItself(start);
      after := Take(start, start, Begin(tid, call, headers));
      var resolved := Resolve(call);
      if resolved.None? {
        return false, headers, after;
      }
      var token;
      token, after := Serve(resolved.value, headers, env, start, after, tid);
      ok, out := token.Some?, Insert(headers, token);
    }
  }
}
