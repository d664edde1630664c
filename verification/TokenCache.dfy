/**
 * The OAuth2 client-credentials token cache (`OAuth2ClientCredentialsHandler`) as a protocol: any
 * number of threads call `satisfy` on one handler, interleaved in every way the readers-writer lock
 * allows, against a token endpoint that may answer anything.
 */
module TokenCache {
  import Configs
  import opened Text

  // ---- What a call works on ----

  datatype TokenKey = TokenKey(tokenUrl: string, clientId: string, audience: string, scopeKey: string)

  datatype MintedToken = MintedToken(accessToken: string, refreshToken: string, expiresAt: int)

  type Cache = map<TokenKey, MintedToken>

  /** The security requirement with its scheme, and the OAuth2 part of the caller's configuration. */
  datatype Call = Call(isOAuth2: bool, config: Option<Configs.OAuth2Config>, tokenUrl: string, refreshUrl: string,
                       scopes: seq<string>)

  datatype Request = Request(key: TokenKey, scopes: seq<string>, refreshUrl: string)

  /** A setting of the configuration wins over the specification's, unless it is empty. */
  function Override<T(==)>(setting: seq<T>, specified: seq<T>): (r: seq<T>)
    ensures setting != [] ==> r == setting
    ensures setting == [] ==> r == specified
  {
    if setting == [] then specified else setting
  }

  /** What is asked for; `None` when the call is refused before the cache is looked at. */
  function Resolve(call: Call): (r: Option<Request>)
    ensures r.None? <==> !call.isOAuth2 || call.config.None? || Override(call.config.value.tokenUrlOverride, call.tokenUrl) == ""
    ensures r.Some? ==>
      var config, key := call.config.value, r.value.key;
      && key.tokenUrl == Override(config.tokenUrlOverride, call.tokenUrl) != ""
      && key.clientId == config.clientId && key.audience == config.audience
      && r.value.scopes == Override(config.scopesOverride, call.scopes) && key.scopeKey == Join(r.value.scopes, ":")
      && r.value.refreshUrl == Override(Override(config.refreshUrlOverride, call.refreshUrl), key.tokenUrl) != ""
  {
    if !call.isOAuth2 || call.config.None? then None
    else
      var config := call.config.value;
      var scopes := if config.scopesOverride == [] then call.scopes else config.scopesOverride;
      var tokenUrl := if config.tokenUrlOverride == "" then call.tokenUrl else config.tokenUrlOverride;
      var refreshUrl := if config.refreshUrlOverride == "" then call.refreshUrl else config.refreshUrlOverride;
      if tokenUrl == "" then None
      else Some(Request(TokenKey(tokenUrl, config.clientId, config.audience, Join(scopes, ":")), scopes,
                        if refreshUrl == "" then tokenUrl else refreshUrl))
  }

  datatype Grant = Mint(url: string, scopes: seq<string>) | Refresh(url: string, token: string)

  datatype Reply = Reply(accessToken: Option<string>, expiresIn: Option<int>, refreshToken: Option<string>)

  /** `body.None?`: the content cannot be read as a reply. */
  datatype Response = NoResponse | Response(status: int, body: Option<Reply>)

  const DEFAULT_LIFETIME := 3600
  const JIGGLE := 30

  function Expiry(reply: Reply, at: int): int {
    at + reply.expiresIn.GetOr(DEFAULT_LIFETIME) - JIGGLE
  }

  predicate IsAccepted(response: Response) {
    && response.Response? && 200 <= response.status < 300
    && response.body.Some? && response.body.value.accessToken.GetOr("") != ""
  }

  /** The token `requestToken` makes of an accepted response. */
  function TokenOf(grant: Grant, reply: Reply, at: int): MintedToken {
    MintedToken(reply.accessToken.GetOr(""),
                match reply.refreshToken
                case Some(t) => t
                case None => if grant.Refresh? then grant.token else "",
                Expiry(reply, at))
  }

  // ---- What happened ----

  datatype Event =
    | Sent(tid: nat, key: TokenKey, grant: Grant, at: int)
    | Accepted(tid: nat, key: TokenKey, grant: Grant, reply: Reply, at: int)
    | Failed(tid: nat, key: TokenKey)
    | Bearer(tid: nat, key: TokenKey, token: string, at: int, cached: bool)

  type Log = seq<Event>

  function Front(log: Log): Log
    requires log != []
  {
    log[..|log| - 1]
  }

  function Last(log: Log): Event
    requires log != []
  {
    log[|log| - 1]
  }

  predicate IsAcceptedFor(e: Event, key: TokenKey) {
    e.Accepted? && e.key == key
  }

  function RefreshTokenOf(t: Option<MintedToken>): string {
    if t.Some? then t.value.refreshToken else ""
  }

  /**
   * The token in force for `key`, read off the server's replies alone: the last accepted reply,
   * and the last refresh token issued since the mint it goes back to.
   */
  function InForce(log: Log, key: TokenKey): Option<MintedToken> {
    if log == [] then None
    else
      var e := Last(log);
      if !IsAcceptedFor(e, key) then InForce(Front(log), key)
      else
        var issued := match e.reply.refreshToken
          case Some(t) => t
          case None => if e.grant.Mint? then "" else RefreshTokenOf(InForce(Front(log), key));
        Some(MintedToken(e.reply.accessToken.GetOr(""), issued, Expiry(e.reply, e.at)))
  }

  /** The request that has no outcome yet. */
  function InFlight(log: Log): Option<Event> {
    if log == [] then None
    else
      match Last(log)
      case Sent(_, _, _, _) => Some(Last(log))
      case Accepted(_, _, _, _, _) => None
      case Failed(_, _) => None
      case Bearer(_, _, _, _, _) => InFlight(Front(log))
  }

  /** Every token accepted for `key` has expired at `now`. */
  ghost predicate AllExpired(log: Log, key: TokenKey, now: int) {
    forall i :: 0 <= i < |log| && IsAcceptedFor(log[i], key) ==> Expiry(log[i].reply, log[i].at) <= now
  }

  ghost predicate GrantOk(log: Log, key: TokenKey, grant: Grant) {
    match grant
    case Mint(url, scopes) => url == key.tokenUrl && Join(scopes, ":") == key.scopeKey
    case Refresh(url, token) => url != "" && token != "" && token == RefreshTokenOf(InForce(log, key))
  }

  /** What must hold of an event, given everything before it. */
  ghost predicate EventOk(log: Log, e: Event) {
    match e
    case Sent(_, key, grant, at) =>
      InFlight(log) == None && AllExpired(log, key, at) && GrantOk(log, key, grant)
    case Accepted(tid, key, grant, reply, at) =>
      && InFlight(log).Some? && reply.accessToken.GetOr("") != ""
      && (var sent := InFlight(log).value; sent.Sent? && sent == Sent(tid, key, grant, sent.at) && sent.at <= at)
    case Failed(tid, key) =>
      InFlight(log).Some? && InFlight(log).value.tid == tid && InFlight(log).value.key == key
    case Bearer(tid, key, token, at, cached) =>
      && InForce(log, key).Some? && InForce(log, key).value.accessToken == token
      && if cached then at < InForce(log, key).value.expiresAt
         else log != [] && IsAcceptedFor(Last(log), key) && Last(log).tid == tid
  }

  ghost predicate LogOk(log: Log) {
    log == [] || (LogOk(Front(log)) && EventOk(Front(log), Last(log)))
  }

  // ---- Threads and steps ----

  /** Where a thread is in `satisfy`. */
  datatype Phase =
    | Returned(ok: bool)
    | WantShared
    | HoldShared
    | DoneShared(hit: bool)
    | WantExclusive
    | HoldExclusive
    | Ready(grant: Grant)
    | Awaiting(grant: Grant, since: int)
    | Leaving(done: bool)

  /** `entry`: the Authorization headers at the start of the call; `before`: the cache when the exclusive lock was taken. */
  datatype Thread = Thread(phase: Phase, call: Call, request: Request, headers: seq<string>, entry: seq<string>,
                           before: Cache)

  datatype State = State(clock: int, cache: Cache, writer: Option<nat>, readers: set<nat>, threads: seq<Thread>, log: Log)

  datatype Step =
    | Tick(seconds: nat)
    | Begin(tid: nat, call: Call, authorization: seq<string>)
    | LockShared(tid: nat)
    | Look(tid: nat)
    | UnlockShared(tid: nat)
    | LockExclusive(tid: nat)
    | Recheck(tid: nat)
    | Send(tid: nat)
    | Throw(tid: nat)
    | Answer(tid: nat, response: Response)
    | UnlockExclusive(tid: nat)

  predicate Fresh(s: State, key: TokenKey) {
    key in s.cache && s.clock < s.cache[key].expiresAt
  }

  predicate Enabled(s: State, step: Step) {
    if step.Tick? then true
    else if step.tid >= |s.threads| then false
    else
      var phase := s.threads[step.tid].phase;
      match step
      case Begin(_, _, _) => phase.Returned?
      case LockShared(_) => phase.WantShared? && s.writer == None
      case Look(_) => phase.HoldShared?
      case UnlockShared(_) => phase.DoneShared?
      case LockExclusive(_) => phase.WantExclusive? && s.writer == None && s.readers == {}
      case Recheck(_) => phase.HoldExclusive?
      case Send(_) => phase.Ready?
      case Throw(_) => phase.Ready?
      case Answer(_, _) => phase.Awaiting?
      case UnlockExclusive(_) => phase.Leaving?
  }

  function Put(s: State, tid: nat, t: Thread): State
    requires tid < |s.threads|
  {
    s.(threads := s.threads[tid := t])
  }

  function Move(s: State, tid: nat, phase: Phase): State
    requires tid < |s.threads|
  {
    Put(s, tid, s.threads[tid].(phase := phase))
  }

  /** Inserts the header for the cached token. */
  function Present(s: State, tid: nat, phase: Phase, cached: bool): State
    requires tid < |s.threads| && s.threads[tid].request.key in s.cache
  {
    var t := s.threads[tid];
    var token := s.cache[t.request.key].accessToken;
    Put(s, tid, t.(phase := phase, headers := t.headers + ["Bearer " + token]))
      .(log := s.log + [Bearer(tid, t.request.key, token, s.clock, cached)])
  }

  function MintGrant(request: Request): Grant {
    Mint(request.key.tokenUrl, request.scopes)
  }

  /** After a request that failed: a refresh falls through to a mint, a failed mint fails the call. */
  function AfterFailure(t: Thread, grant: Grant): Phase {
    if grant.Refresh? then Ready(MintGrant(t.request)) else Leaving(false)
  }

  function DoRecheck(s: State, tid: nat): State
    requires tid < |s.threads|
  {
    var key := s.threads[tid].request.key;
    if Fresh(s, key) then Present(s, tid, Leaving(true), true)
    else if key in s.cache && s.cache[key].refreshToken != "" then
      Move(s, tid, Ready(Refresh(s.threads[tid].request.refreshUrl, s.cache[key].refreshToken)))
    else Move(s, tid, Ready(MintGrant(s.threads[tid].request)))
  }

  function DoAnswer(s: State, tid: nat, response: Response): State
    requires tid < |s.threads| && s.threads[tid].phase.Awaiting?
  {
    var t := s.threads[tid];
    var key, grant := t.request.key, t.phase.grant;
    if IsAccepted(response) then
      var reply := response.body.value;
      Present(s.(cache := s.cache[key := TokenOf(grant, reply, s.clock)],
                 log := s.log + [Accepted(tid, key, grant, reply, s.clock)]),
              tid, Leaving(true), false)
    else Move(s, tid, AfterFailure(t, grant)).(log := s.log + [Failed(tid, key)])
  }

  function Do(s: State, step: Step): State
    requires Enabled(s, step)
  {
    match step
    case Tick(seconds) => s.(clock := s.clock + seconds)
    case Begin(tid, call, authorization) =>
      (match Resolve(call)
       case None => Put(s, tid, s.threads[tid].(phase := Returned(false), headers := authorization, entry := authorization))
       case Some(request) => Put(s, tid, Thread(WantShared, call, request, authorization, authorization, s.cache)))
    case LockShared(tid) => Move(s, tid, HoldShared).(readers := s.readers + {tid})
    case Look(tid) =>
      if Fresh(s, s.threads[tid].request.key) then Present(s, tid, DoneShared(true), true)
      else Move(s, tid, DoneShared(false))
    case UnlockShared(tid) =>
      Move(s, tid, if s.threads[tid].phase.hit then Returned(true) else WantExclusive).(readers := s.readers - {tid})
    case LockExclusive(tid) =>
      Put(s, tid, s.threads[tid].(phase := HoldExclusive, before := s.cache)).(writer := Some(tid))
    case Recheck(tid) => DoRecheck(s, tid)
    case Send(tid) =>
      var t := s.threads[tid];
      Move(s, tid, Awaiting(t.phase.grant, s.clock)).(log := s.log + [Sent(tid, t.request.key, t.phase.grant, s.clock)])
    case Throw(tid) => Move(s, tid, AfterFailure(s.threads[tid], s.threads[tid].phase.grant))
    case Answer(tid, response) => DoAnswer(s, tid, response)
    case UnlockExclusive(tid) => Move(s, tid, Returned(s.threads[tid].phase.done)).(writer := None)
  }

  /** The state after a run; `None` when a step of it is not possible. */
  function Run(s: State, steps: seq<Step>): Option<State>
    decreases |steps|
  {
    if steps == [] then Some(s)
    else if Enabled(s, steps[0]) then Run(Do(s, steps[0]), steps[1..])
    else None
  }

  /** A handler nobody has called yet, with any number of threads around. */
  predicate Initial(s: State) {
    && s.cache == map[] && s.writer == None && s.readers == {} && s.log == []
    && forall i :: 0 <= i < |s.threads| ==> s.threads[i].phase == Returned(false) && s.threads[i].headers == s.threads[i].entry
  }

  // ---- Appending to the log ----

  lemma Extended(log: Log, e: Event)
    ensures log + [e] != [] && Front(log + [e]) == log && Last(log + [e]) == e
  {
  }

  lemma InForceKept(log: Log, e: Event, key: TokenKey)
    requires !IsAcceptedFor(e, key)
    ensures InForce(log + [e], key) == InForce(log, key)
  {
    Extended(log, e);
  }

  lemma AllExpiredExtended(log: Log, e: Event, key: TokenKey, now: int)
    requires AllExpired(log, key, now)
    requires IsAcceptedFor(e, key) ==> Expiry(e.reply, e.at) <= now
    ensures AllExpired(log + [e], key, now)
  {
    forall i | 0 <= i < |log + [e]| && IsAcceptedFor((log + [e])[i], key)
      ensures Expiry((log + [e])[i].reply, (log + [e])[i].at) <= now
    {
      assert i < |log| ==> IsAcceptedFor(log[i], key);
    }
  }

  function Lookup(cache: Cache, key: TokenKey): Option<MintedToken> {
    if key in cache then Some(cache[key]) else None
  }

  /** The cache holds exactly the tokens in force. */
  ghost predicate CacheOk(cache: Cache, log: Log) {
    forall key :: Lookup(cache, key) == InForce(log, key)
  }

  function ExpiryOf(t: Option<MintedToken>, now: int): int {
    if t.Some? && t.value.expiresAt > now then t.value.expiresAt else now
  }

  /** Only the token in force may still be valid. */
  ghost predicate OnlyCurrentValid(log: Log, now: int) {
    forall key :: AllExpired(log, key, ExpiryOf(InForce(log, key), now))
  }

  ghost predicate Content(now: int, cache: Cache, log: Log) {
    LogOk(log) && CacheOk(cache, log) && OnlyCurrentValid(log, now)
  }

  /** Anything but an accepted reply leaves the tokens as they are. */
  lemma ContentExtended(now: int, cache: Cache, log: Log, e: Event)
    requires Content(now, cache, log) && !e.Accepted? && EventOk(log, e)
    ensures Content(now, cache, log + [e])
  {
    Extended(log, e);
    forall key ensures InForce(log + [e], key) == InForce(log, key) {
      InForceKept(log, e, key);
    }
    forall key ensures AllExpired(log + [e], key, ExpiryOf(InForce(log + [e], key), now)) {
      AllExpiredExtended(log, e, key, ExpiryOf(InForce(log, key), now));
    }
  }

  lemma ContentAccepted(now: int, cache: Cache, log: Log, tid: nat, key: TokenKey, grant: Grant, reply: Reply)
    requires Content(now, cache, log) && AllExpired(log, key, now)
    requires EventOk(log, Accepted(tid, key, grant, reply, now))
    requires grant.Refresh? ==> grant.token == RefreshTokenOf(InForce(log, key))
    ensures Content(now, cache[key := TokenOf(grant, reply, now)], log + [Accepted(tid, key, grant, reply, now)])
  {
    var e := Accepted(tid, key, grant, reply, now);
    var token := TokenOf(grant, reply, now);
    Extended(log, e);
    assert InForce(log + [e], key) == Some(token);
    forall k ensures Lookup(cache[key := token], k) == InForce(log + [e], k) {
      if k != key {
        InForceKept(log, e, k);
        assert Lookup(cache, k) == InForce(log, k);
      }
    }
    forall k ensures AllExpired(log + [e], k, ExpiryOf(InForce(log + [e], k), now)) {
      if k != key {
        InForceKept(log, e, k);
        AllExpiredExtended(log, e, k, ExpiryOf(InForce(log, k), now));
      } else {
        AllExpiredExtended(log, e, k, ExpiryOf(Some(token), now));
      }
    }
  }

  lemma ContentLater(now: int, later: int, cache: Cache, log: Log)
    requires Content(now, cache, log) && now <= later
    ensures Content(later, cache, log)
  {
    forall key ensures AllExpired(log, key, ExpiryOf(InForce(log, key), later)) {
      assert AllExpired(log, key, ExpiryOf(InForce(log, key), now));
    }
  }

  // ---- The invariant ----

  predicate HoldsShared(phase: Phase) {
    phase.HoldShared? || phase.DoneShared?
  }

  predicate HoldsExclusive(phase: Phase) {
    phase.HoldExclusive? || phase.Ready? || phase.Awaiting? || phase.Leaving?
  }

  /** The lock is held by exactly the threads that are between taking and releasing it. */
  ghost predicate Locks(s: State) {
    && (forall i :: 0 <= i < |s.threads| ==> (HoldsShared(s.threads[i].phase) <==> i in s.readers))
    && (forall i :: 0 <= i < |s.threads| ==> (HoldsExclusive(s.threads[i].phase) <==> s.writer == Some(i)))
    && (s.writer.Some? ==> s.readers == {} && s.writer.value < |s.threads|)
  }

  /** The request goes where the call wants it, and asks for what the call wants. */
  predicate AddressedOk(grant: Grant, request: Request) {
    match grant
    case Mint(url, scopes) => url == request.key.tokenUrl && scopes == request.scopes
    case Refresh(url, _) => url == request.refreshUrl
  }

  predicate Undecided(phase: Phase) {
    phase.HoldExclusive? || phase.Ready? || phase.Awaiting?
  }

  ghost predicate ThreadOk(t: Thread) {
    && (t.phase.Ready? || t.phase.Awaiting? ==> AddressedOk(t.phase.grant, t.request))
    && (!Served(t.phase) ==> t.headers == t.entry)
  }

  /** What a thread asks for is what its call resolves to. */
  ghost predicate CallsOk(resolve: Call -> Option<Request>, threads: seq<Thread>) {
    forall i :: 0 <= i < |threads| && !threads[i].phase.Returned? ==> resolve(threads[i].call) == Some(threads[i].request)
  }

  /** The header this thread inserted last. */
  function LastBearer(log: Log, tid: nat): Option<Event> {
    if log == [] then None
    else if Last(log).Bearer? && Last(log).tid == tid then Some(Last(log))
    else LastBearer(Front(log), tid)
  }

  predicate Served(phase: Phase) {
    phase == Returned(true) || phase == DoneShared(true) || phase == Leaving(true)
  }

  ghost predicate ServedOk(t: Thread, tid: nat, log: Log) {
    Served(t.phase) ==>
      var b := LastBearer(log, tid);
      b.Some? && b.value.Bearer? && b.value.key == t.request.key && t.headers == t.entry + ["Bearer " + b.value.token]
  }

  /** What the thread with the exclusive lock knows. */
  ghost predicate WriterOk(w: nat, t: Thread, now: int, cache: Cache, log: Log) {
    && (Undecided(t.phase) || t.phase == Leaving(false) ==> cache == t.before)
    && (t.phase.Ready? || t.phase.Awaiting? ==>
        AllExpired(log, t.request.key, now) && GrantOk(log, t.request.key, t.phase.grant))
    && (t.phase.Awaiting? ==> t.phase.since <= now)
    && InFlight(log) == (if t.phase.Awaiting? then Some(Sent(w, t.request.key, t.phase.grant, t.phase.since)) else None)
  }

  ghost predicate Exclusively(s: State) {
    if s.writer == None then InFlight(s.log) == None
    else s.writer.value < |s.threads| && WriterOk(s.writer.value, s.threads[s.writer.value], s.clock, s.cache, s.log)
  }

  ghost predicate Inv(s: State) {
    && Locks(s)
    && (forall i :: 0 <= i < |s.threads| ==> ThreadOk(s.threads[i]))
    && CallsOk(Resolve, s.threads)
    && (forall i :: 0 <= i < |s.threads| ==> ServedOk(s.threads[i], i, s.log))
    && Content(s.clock, s.cache, s.log)
    && Exclusively(s)
  }

  // ---- Every step keeps the lock discipline ----

  /** A step that neither takes nor releases the lock changes one thread, which stays as locked as it was. */
  lemma LocksKept(s: State, tid: nat, s': State)
    requires Locks(s) && tid < |s.threads| == |s'.threads|
    requires s'.threads == s.threads[tid := s'.threads[tid]] && s'.readers == s.readers && s'.writer == s.writer
    requires HoldsShared(s'.threads[tid].phase) == HoldsShared(s.threads[tid].phase)
    requires HoldsExclusive(s'.threads[tid].phase) == HoldsExclusive(s.threads[tid].phase)
    ensures Locks(s')
  {
  }

  lemma StepLocks(s: State, step: Step)
    requires Locks(s) && Enabled(s, step)
    ensures Locks(Do(s, step))
  {
    if step.LockShared? || step.UnlockShared? {
      SharedLocks(s, step);
    } else if step.LockExclusive? || step.UnlockExclusive? {
      ExclusiveLocks(s, step);
    } else if !step.Tick? {
      LocksKept(s, step.tid, Do(s, step));
    }
  }

  lemma SharedLocks(s: State, step: Step)
    requires Locks(s) && Enabled(s, step) && (step.LockShared? || step.UnlockShared?)
    ensures Locks(Do(s, step))
  {
  }

  lemma ExclusiveLocks(s: State, step: Step)
    requires Locks(s) && Enabled(s, step) && (step.LockExclusive? || step.UnlockExclusive?)
    ensures Locks(Do(s, step))
  {
  }

  lemma StepThreads(s: State, step: Step)
    requires Inv(s) && Enabled(s, step)
    ensures forall i :: 0 <= i < |Do(s, step).threads| ==> ThreadOk(Do(s, step).threads[i])
  {
    if !step.Tick? {
      StepThread(s, step);
    }
  }

  lemma StepThread(s: State, step: Step)
    requires Enabled(s, step) && !step.Tick? && ThreadOk(s.threads[step.tid])
    ensures ThreadOk(Do(s, step).threads[step.tid])
    ensures forall i :: 0 <= i < |s.threads| && i != step.tid ==> Do(s, step).threads[i] == s.threads[i]
  {
  }

  /** Only beginning a call sets what a thread asks for. */
  lemma CallKept(s: State, step: Step, i: nat)
    requires Enabled(s, step) && i < |s.threads|
    ensures var t, t' := s.threads[i], Do(s, step).threads[i];
      if step.Begin? && step.tid == i && Resolve(step.call).Some? then
        t'.call == step.call && Some(t'.request) == Resolve(step.call) && t'.phase == WantShared
      else t'.call == t.call && t'.request == t.request && (t.phase.Returned? ==> t'.phase.Returned?)
  {
  }

  lemma StepCalls(s: State, step: Step)
    requires CallsOk(Resolve, s.threads) && Enabled(s, step)
    ensures CallsOk(Resolve, Do(s, step).threads)
  {
    var s' := Do(s, step);
    forall i | 0 <= i < |s'.threads| && !s'.threads[i].phase.Returned?
      ensures Resolve(s'.threads[i].call) == Some(s'.threads[i].request)
    {
      CallKept(s, step, i);
    }
  }

  lemma LastBearerKept(log: Log, e: Event, tid: nat)
    requires !(e.Bearer? && e.tid == tid)
    ensures LastBearer(log + [e], tid) == LastBearer(log, tid)
  {
    Extended(log, e);
  }

  lemma PresentServed(s: State, tid: nat, phase: Phase, cached: bool)
    requires tid < |s.threads| && s.threads[tid].request.key in s.cache
    requires forall i :: 0 <= i < |s.threads| ==> ServedOk(s.threads[i], i, s.log)
    requires s.threads[tid].headers == s.threads[tid].entry
    ensures var s' := Present(s, tid, phase, cached);
      forall i :: 0 <= i < |s'.threads| ==> ServedOk(s'.threads[i], i, s'.log)
  {
    var s' := Present(s, tid, phase, cached);
    var e := Last(s'.log);
    Extended(s.log, e);
    forall i | 0 <= i < |s'.threads| ensures ServedOk(s'.threads[i], i, s'.log) {
      if i != tid {
        LastBearerKept(s.log, e, i);
      }
    }
  }

  lemma LoggedServed(threads: seq<Thread>, log: Log, e: Event)
    requires forall i :: 0 <= i < |threads| ==> ServedOk(threads[i], i, log)
    requires !e.Bearer?
    ensures forall i :: 0 <= i < |threads| ==> ServedOk(threads[i], i, log + [e])
  {
    forall i | 0 <= i < |threads| ensures ServedOk(threads[i], i, log + [e]) {
      LastBearerKept(log, e, i);
    }
  }

  lemma MovedServed(s: State, tid: nat, t: Thread)
    requires tid < |s.threads| && !Served(t.phase)
    requires forall i :: 0 <= i < |s.threads| ==> ServedOk(s.threads[i], i, s.log)
    ensures forall i :: 0 <= i < |s.threads| ==> ServedOk(Put(s, tid, t).threads[i], i, s.log)
  {
  }

  lemma UnlockServed(s: State, step: Step)
    requires Inv(s) && Enabled(s, step) && (step.UnlockShared? || step.UnlockExclusive?)
    ensures var s' := Do(s, step); forall i :: 0 <= i < |s'.threads| ==> ServedOk(s'.threads[i], i, s'.log)
  {
  }

  lemma AnswerServed(s: State, step: Step)
    requires Inv(s) && Enabled(s, step) && step.Answer?
    ensures var s' := Do(s, step); forall i :: 0 <= i < |s'.threads| ==> ServedOk(s'.threads[i], i, s'.log)
  {
    var tid, t := step.tid, s.threads[step.tid];
    var key, grant := t.request.key, t.phase.grant;
    assert ThreadOk(t);
    if IsAccepted(step.response) {
      var reply := step.response.body.value;
      var e := Accepted(tid, key, grant, reply, s.clock);
      LoggedServed(s.threads, s.log, e);
      PresentServed(s.(cache := s.cache[key := TokenOf(grant, reply, s.clock)], log := s.log + [e]), tid, Leaving(true), false);
    } else {
      var s1 := Move(s, tid, AfterFailure(t, grant));
      MovedServed(s, tid, s1.threads[tid]);
      LoggedServed(s1.threads, s.log, Failed(tid, key));
    }
  }

  lemma LookServed(s: State, step: Step)
    requires Inv(s) && Enabled(s, step) && (step.Look? || step.Recheck?)
    ensures var s' := Do(s, step); forall i :: 0 <= i < |s'.threads| ==> ServedOk(s'.threads[i], i, s'.log)
  {
    var tid := step.tid;
    assert ThreadOk(s.threads[tid]);
    if Fresh(s, s.threads[tid].request.key) {
      PresentServed(s, tid, if step.Look? then DoneShared(true) else Leaving(true), true);
    } else {
      MovedServed(s, tid, Do(s, step).threads[tid]);
    }
  }

  lemma StepServed(s: State, step: Step)
    requires Inv(s) && Enabled(s, step)
    ensures var s' := Do(s, step); forall i :: 0 <= i < |s'.threads| ==> ServedOk(s'.threads[i], i, s'.log)
  {
    if step.Answer? {
      AnswerServed(s, step);
    } else if step.Look? || step.Recheck? {
      LookServed(s, step);
    } else if step.UnlockShared? || step.UnlockExclusive? {
      UnlockServed(s, step);
    } else if !step.Tick? {
      MovedServed(s, step.tid, Do(s, step).threads[step.tid]);
      if step.Send? {
        LoggedServed(Do(s, step).threads, s.log, Last(Do(s, step).log));
      }
    }
  }

  // ---- Every step keeps the log and what the exclusive thread knows ----

  /** The thread taking this step holds the exclusive lock. */
  lemma Owns(s: State, step: Step)
    requires Inv(s) && Enabled(s, step) && !step.Tick? && HoldsExclusive(s.threads[step.tid].phase)
    ensures s.writer == Some(step.tid)
    ensures WriterOk(step.tid, s.threads[step.tid], s.clock, s.cache, s.log)
    ensures ThreadOk(s.threads[step.tid]) && Content(s.clock, s.cache, s.log)
  {
  }

  lemma AllExpiredLater(log: Log, key: TokenKey, now: int, later: int)
    requires AllExpired(log, key, now) && now <= later
    ensures AllExpired(log, key, later)
  {
  }

  lemma CachedBearerOk(s: State, tid: nat)
    requires Content(s.clock, s.cache, s.log) && tid < |s.threads| && Fresh(s, s.threads[tid].request.key)
    ensures var key := s.threads[tid].request.key;
      EventOk(s.log, Bearer(tid, key, s.cache[key].accessToken, s.clock, true))
  {
    var key := s.threads[tid].request.key;
    assert Lookup(s.cache, key) == InForce(s.log, key);
  }

  lemma PresentContent(s: State, tid: nat, phase: Phase)
    requires Content(s.clock, s.cache, s.log) && tid < |s.threads| && Fresh(s, s.threads[tid].request.key)
    ensures var s' := Present(s, tid, phase, true);
      Content(s'.clock, s'.cache, s'.log) && InFlight(s'.log) == InFlight(s.log)
  {
    var key := s.threads[tid].request.key;
    var e := Bearer(tid, key, s.cache[key].accessToken, s.clock, true);
    CachedBearerOk(s, tid);
    ContentExtended(s.clock, s.cache, s.log, e);
    Extended(s.log, e);
  }

  lemma StepTick(s: State, step: Step)
    requires Inv(s) && step.Tick?
    ensures var s' := Do(s, step); Content(s'.clock, s'.cache, s'.log) && Exclusively(s')
  {
    ContentLater(s.clock, s.clock + step.seconds, s.cache, s.log);
    if s.writer.Some? {
      var t := s.threads[s.writer.value];
      if t.phase.Ready? || t.phase.Awaiting? {
        AllExpiredLater(s.log, t.request.key, s.clock, s.clock + step.seconds);
      }
    }
  }

  lemma StepShared(s: State, step: Step)
    requires Inv(s) && Enabled(s, step)
    requires step.Begin? || step.LockShared? || step.Look? || step.UnlockShared?
    ensures var s' := Do(s, step); Content(s'.clock, s'.cache, s'.log) && Exclusively(s')
  {
    assert s.writer != Some(step.tid);
    if step.Look? {
      assert s.writer == None;
      if Fresh(s, s.threads[step.tid].request.key) {
        PresentContent(s, step.tid, DoneShared(true));
      }
    }
  }

  lemma StepLock(s: State, step: Step)
    requires Inv(s) && Enabled(s, step) && (step.LockExclusive? || step.UnlockExclusive?)
    ensures var s' := Do(s, step); Content(s'.clock, s'.cache, s'.log) && Exclusively(s')
  {
    if step.UnlockExclusive? {
      Owns(s, step);
    }
  }

  /** A token that is not fresh has expired, and with it every earlier one. */
  lemma NotFresh(s: State, key: TokenKey)
    requires Content(s.clock, s.cache, s.log) && !Fresh(s, key)
    ensures AllExpired(s.log, key, s.clock)
  {
    assert Lookup(s.cache, key) == InForce(s.log, key);
    assert AllExpired(s.log, key, ExpiryOf(InForce(s.log, key), s.clock));
  }

  lemma StepRecheck(s: State, step: Step)
    requires Inv(s) && Enabled(s, step) && step.Recheck?
    ensures var s' := Do(s, step); Content(s'.clock, s'.cache, s'.log) && Exclusively(s')
  {
    var key := s.threads[step.tid].request.key;
    Owns(s, step);
    if Fresh(s, key) {
      PresentContent(s, step.tid, Leaving(true));
    } else {
      NotFresh(s, key);
      assert Lookup(s.cache, key) == InForce(s.log, key);
    }
  }

  lemma StepThrow(s: State, step: Step)
    requires Inv(s) && Enabled(s, step) && step.Throw?
    ensures var s' := Do(s, step); Content(s'.clock, s'.cache, s'.log) && Exclusively(s')
  {
    Owns(s, step);
  }

  lemma StepSend(s: State, step: Step)
    requires Inv(s) && Enabled(s, step) && step.Send?
    ensures var s' := Do(s, step); Content(s'.clock, s'.cache, s'.log) && Exclusively(s')
  {
    Owns(s, step);
    var t := s.threads[step.tid];
    var e := Sent(step.tid, t.request.key, t.phase.grant, s.clock);
    ContentExtended(s.clock, s.cache, s.log, e);
    Extended(s.log, e);
    InForceKept(s.log, e, t.request.key);
    AllExpiredExtended(s.log, e, t.request.key, s.clock);
  }

  lemma StepRejected(s: State, step: Step)
    requires Inv(s) && Enabled(s, step) && step.Answer? && !IsAccepted(step.response)
    ensures var s' := Do(s, step); Content(s'.clock, s'.cache, s'.log) && Exclusively(s')
  {
    Owns(s, step);
    var t := s.threads[step.tid];
    var e := Failed(step.tid, t.request.key);
    ContentExtended(s.clock, s.cache, s.log, e);
    Extended(s.log, e);
    InForceKept(s.log, e, t.request.key);
    AllExpiredExtended(s.log, e, t.request.key, s.clock);
  }

  lemma StepAccepted(s: State, step: Step)
    requires Inv(s) && Enabled(s, step) && step.Answer? && IsAccepted(step.response)
    ensures var s' := Do(s, step); Content(s'.clock, s'.cache, s'.log) && Exclusively(s')
  {
    Owns(s, step);
    var tid, t, reply := step.tid, s.threads[step.tid], step.response.body.value;
    var key, grant := t.request.key, t.phase.grant;
    var e := Accepted(tid, key, grant, reply, s.clock);
    var cache := s.cache[key := TokenOf(grant, reply, s.clock)];
    ContentAccepted(s.clock, s.cache, s.log, tid, key, grant, reply);
    AcceptedThenBearer(s.clock, cache, s.log, tid, key, grant, reply);
  }

  lemma AcceptedThenBearer(now: int, cache: Cache, log: Log, tid: nat, key: TokenKey, grant: Grant, reply: Reply)
    requires key in cache && Content(now, cache, log + [Accepted(tid, key, grant, reply, now)])
    ensures var log' := log + [Accepted(tid, key, grant, reply, now)] + [Bearer(tid, key, cache[key].accessToken, now, false)];
      Content(now, cache, log') && InFlight(log') == None
  {
    var e := Accepted(tid, key, grant, reply, now);
    var b := Bearer(tid, key, cache[key].accessToken, now, false);
    Extended(log, e);
    Extended(log + [e], b);
    assert Lookup(cache, key) == InForce(log + [e], key);
    ContentExtended(now, cache, log + [e], b);
  }

  /** Every step keeps the invariant. */
  lemma StepKeeps(s: State, step: Step)
    requires Inv(s) && Enabled(s, step)
    ensures Inv(Do(s, step))
  {
    StepLocks(s, step);
    StepThreads(s, step);
    StepCalls(s, step);
    StepServed(s, step);
    match step
    case Tick(_) => StepTick(s, step);
    case Begin(_, _, _) => StepShared(s, step);
    case LockShared(_) => StepShared(s, step);
    case Look(_) => StepShared(s, step);
    case UnlockShared(_) => StepShared(s, step);
    case LockExclusive(_) => StepLock(s, step);
    case UnlockExclusive(_) => StepLock(s, step);
    case Recheck(_) => StepRecheck(s, step);
    case Throw(_) => StepThrow(s, step);
    case Send(_) => StepSend(s, step);
    case Answer(_, response) =>
      if IsAccepted(response) {
        StepAccepted(s, step);
      } else {
        StepRejected(s, step);
      }
  }

  // ---- Every run ----

  lemma InitialInv(s: State)
    requires Initial(s)
    ensures Inv(s)
  {
    forall key ensures Lookup(s.cache, key) == InForce(s.log, key) {
    }
  }

  lemma {:induction false} RunKeeps(s: State, steps: seq<Step>)
    requires Inv(s) && Run(s, steps).Some?
    ensures Inv(Run(s, steps).value)
    decreases |steps|
  {
    if steps != [] {
      StepKeeps(s, steps[0]);
      RunKeeps(Do(s, steps[0]), steps[1..]);
    }
  }

  ghost predicate Reachable(s: State) {
    exists start, steps :: Initial(start) && Run(start, steps) == Some(s)
  }

  lemma ReachableInv(s: State)
    requires Reachable(s)
    ensures Inv(s)
  {
    var start, steps :| Initial(start) && Run(start, steps) == Some(s);
    InitialInv(start);
    RunKeeps(start, steps);
  }

  // ---- What the log of every run says ----

  lemma {:induction false} EventOkAt(log: Log, i: nat)
    requires LogOk(log) && i < |log|
    ensures LogOk(log[..i]) && EventOk(log[..i], log[i])
    decreases |log|
  {
    if i < |log| - 1 {
      EventOkAt(Front(log), i);
      assert Front(log)[..i] == log[..i];
    }
  }

  /** The pending request stands in the log, and since then only headers were inserted. */
  lemma {:induction false} PendingSent(log: Log) returns (m: nat)
    requires LogOk(log) && InFlight(log).Some?
    ensures m < |log| && log[m] == InFlight(log).value && log[m].Sent?
    ensures forall k :: m < k < |log| ==> log[k].Bearer?
    decreases |log|
  {
    if Last(log).Sent? {
      m := |log| - 1;
    } else {
      m := PendingSent(Front(log));
    }
  }

  lemma PendingBefore(log: Log, j: nat) returns (m: nat)
    requires LogOk(log) && j <= |log| && InFlight(log[..j]).Some?
    requires LogOk(log[..j])
    ensures m < j && log[m] == InFlight(log[..j]).value && log[m].Sent?
    ensures forall k :: m < k < j ==> log[k].Bearer?
  {
    m := PendingSent(log[..j]);
    forall k | m < k < j ensures log[k].Bearer? {
      assert log[..j][k].Bearer?;
    }
  }

  /**
   * Single flight: once a reply is accepted for a key, no request for that key is sent before its lifetime
   * has run down to thirty seconds; a reply without one is good for an hour.
   */
  lemma SingleFlight(s: State, i: nat, j: nat)
    requires Reachable(s) && i < j < |s.log|
    requires s.log[i].Accepted? && s.log[j].Sent? && s.log[i].key == s.log[j].key
    ensures s.log[i].at + s.log[i].reply.expiresIn.GetOr(3600) - 30 <= s.log[j].at
  {
    ReachableInv(s);
    EventOkAt(s.log, j);
    assert IsAcceptedFor(s.log[..j][i], s.log[j].key);
  }

  /** So the validity windows of one key do not overlap: each sees the one successful request that opened it. */
  lemma OneSuccessPerWindow(s: State, i: nat, j: nat)
    requires Reachable(s) && i < j < |s.log|
    requires s.log[i].Accepted? && s.log[j].Accepted? && s.log[i].key == s.log[j].key
    ensures s.log[i].at + s.log[i].reply.expiresIn.GetOr(3600) - 30 <= s.log[j].at
  {
    ReachableInv(s);
    EventOkAt(s.log, j);
    var m := PendingBefore(s.log, j);
    SingleFlight(s, i, m);
  }

  /** At most one token request is on its way, whatever the keys: between two requests stands the outcome of the first. */
  lemma OneInFlight(s: State, i: nat, j: nat) returns (k: nat)
    requires Reachable(s) && i < j < |s.log| && s.log[i].Sent? && s.log[j].Sent?
    ensures i < k < j && (s.log[k].Accepted? || s.log[k].Failed?)
    ensures s.log[k].tid == s.log[i].tid && s.log[k].key == s.log[i].key
  {
    ReachableInv(s);
    EventOkAt(s.log, j);
    k := OutcomeOf(s.log[..j], i);
  }

  lemma {:induction false} OutcomeOf(log: Log, i: nat) returns (k: nat)
    requires LogOk(log) && i < |log| && log[i].Sent? && InFlight(log) == None
    ensures i < k < |log| && (log[k].Accepted? || log[k].Failed?)
    ensures log[k].tid == log[i].tid && log[k].key == log[i].key
    decreases |log|
  {
    var e := Last(log);
    if e.Bearer? {
      k := OutcomeOf(Front(log), i);
    } else {
      var m := PendingSent(Front(log));
      if m == i {
        k := |log| - 1;
      } else {
        EventOkAt(log, m);
        k := OutcomeOf(log[..m], i);
      }
    }
  }

  /** The last accepted reply for a key. */
  ghost predicate IsLatest(log: Log, key: TokenKey, i: nat) {
    && i < |log| && IsAcceptedFor(log[i], key)
    && forall k :: i < k < |log| ==> !IsAcceptedFor(log[k], key)
  }

  lemma {:induction false} InForceIsLatest(log: Log, key: TokenKey) returns (i: nat)
    requires InForce(log, key).Some?
    ensures IsLatest(log, key, i)
    ensures InForce(log, key).value.accessToken == log[i].reply.accessToken.GetOr("")
    ensures InForce(log, key).value.expiresAt == Expiry(log[i].reply, log[i].at)
    decreases |log|
  {
    if IsAcceptedFor(Last(log), key) {
      i := |log| - 1;
    } else {
      i := InForceIsLatest(Front(log), key);
    }
  }

  /**
   * Where a bearer token comes from: the server returned it in the latest accepted reply for the
   * same key. From the cache it is taken only before that reply's expiry; otherwise the reply is
   * the one this very thread just received.
   */
  lemma BearerProvenance(s: State, j: nat) returns (i: nat)
    requires Reachable(s) && j < |s.log| && s.log[j].Bearer?
    ensures IsLatest(s.log[..j], s.log[j].key, i)
    ensures s.log[i].reply.accessToken == Some(s.log[j].token) && s.log[j].token != ""
    ensures s.log[j].cached ==> s.log[j].at + 30 < s.log[i].at + s.log[i].reply.expiresIn.GetOr(3600)
    ensures !s.log[j].cached ==> i == j - 1 && s.log[i].tid == s.log[j].tid
  {
    ReachableInv(s);
    EventOkAt(s.log, j);
    i := InForceIsLatest(s.log[..j], s.log[j].key);
    EventOkAt(s.log, i);
    if !s.log[j].cached {
      assert IsAcceptedFor(s.log[..j][j - 1], s.log[j].key);
    }
  }

  /** Every accepted reply goes back to an accepted mint for the same key through refreshes alone. */
  lemma RootMint(s: State, i: nat) returns (m: nat)
    requires Reachable(s) && i < |s.log| && s.log[i].Accepted?
    ensures m <= i && IsAcceptedFor(s.log[m], s.log[i].key) && s.log[m].grant.Mint?
    ensures forall k :: m < k <= i && IsAcceptedFor(s.log[k], s.log[i].key) ==> s.log[k].grant.Refresh?
  {
    ReachableInv(s);
    m := RootMintIn(s.log, i);
  }

  lemma {:induction false} RootMintIn(log: Log, i: nat) returns (m: nat)
    requires LogOk(log) && i < |log| && log[i].Accepted?
    ensures m <= i && IsAcceptedFor(log[m], log[i].key) && log[m].grant.Mint?
    ensures forall k :: m < k <= i && IsAcceptedFor(log[k], log[i].key) ==> log[k].grant.Refresh?
    decreases i
  {
    if log[i].grant.Mint? {
      m := i;
    } else {
      var key := log[i].key;
      EventOkAt(log, i);
      var sent := PendingBefore(log, i);
      EventOkAt(log, sent);
      assert InForce(log[..sent], key).Some?;
      var previous := InForceIsLatest(log[..sent], key);
      m := RootMintIn(log, previous);
      forall k | m < k <= i && IsAcceptedFor(log[k], key) ensures log[k].grant.Refresh? {
        assert k < sent ==> log[k] == log[..sent][k];
      }
    }
  }

  /** `token` was issued by reply `i` and by no later one, nor was there a mint since. */
  ghost predicate LastIssued(log: Log, key: TokenKey, token: string, i: nat) {
    && i < |log| && IsAcceptedFor(log[i], key) && log[i].reply.refreshToken == Some(token)
    && forall k :: i < k < |log| && IsAcceptedFor(log[k], key) ==>
         log[k].grant.Refresh? && log[k].reply.refreshToken == None
  }

  /** A refresh request carries the last refresh token the server issued for the key. */
  lemma RefreshCarriesLastIssued(s: State, j: nat) returns (i: nat)
    requires Reachable(s) && j < |s.log| && s.log[j].Sent? && s.log[j].grant.Refresh?
    ensures s.log[j].grant.token != "" && LastIssued(s.log[..j], s.log[j].key, s.log[j].grant.token, i)
  {
    ReachableInv(s);
    EventOkAt(s.log, j);
    i := IssuerOf(s.log[..j], s.log[j].key);
  }

  lemma {:induction false} IssuerOf(log: Log, key: TokenKey) returns (i: nat)
    requires RefreshTokenOf(InForce(log, key)) != ""
    ensures LastIssued(log, key, RefreshTokenOf(InForce(log, key)), i)
    decreases |log|
  {
    var e := Last(log);
    if IsAcceptedFor(e, key) && e.reply.refreshToken.Some? {
      i := |log| - 1;
    } else {
      i := IssuerOf(Front(log), key);
    }
  }

  // ---- What a step does, by what the log says ----

  /** At `now` the latest accepted reply for the key has more than thirty seconds to go. */
  ghost predicate IsCurrent(log: Log, key: TokenKey, now: int, i: nat) {
    IsLatest(log, key, i) && now + 30 < log[i].at + log[i].reply.expiresIn.GetOr(3600)
  }

  ghost predicate HasCurrent(log: Log, key: TokenKey, now: int) {
    exists i :: IsCurrent(log, key, now, i)
  }

  /** The server issued a refresh token for the key, and neither replaced it nor minted another since. */
  ghost predicate HasRefreshToken(log: Log, key: TokenKey) {
    exists token, i :: token != "" && LastIssued(log, key, token, i)
  }

  lemma LatestIsOne(log: Log, key: TokenKey, i: nat, j: nat)
    requires IsLatest(log, key, i) && IsLatest(log, key, j)
    ensures i == j
  {
  }

  lemma {:induction false} LatestInForce(log: Log, key: TokenKey, i: nat)
    requires i < |log| && IsAcceptedFor(log[i], key)
    ensures InForce(log, key).Some?
    decreases |log|
  {
    if i < |log| - 1 {
      LatestInForce(Front(log), key, i);
    }
  }

  lemma FreshExactly(s: State, key: TokenKey)
    requires Reachable(s)
    ensures Fresh(s, key) <==> HasCurrent(s.log, key, s.clock)
  {
    ReachableInv(s);
    assert Lookup(s.cache, key) == InForce(s.log, key);
    if Fresh(s, key) {
      var i := InForceIsLatest(s.log, key);
      assert IsCurrent(s.log, key, s.clock, i);
    }
    if HasCurrent(s.log, key, s.clock) {
      var k :| IsCurrent(s.log, key, s.clock, k);
      LatestInForce(s.log, key, k);
      var i := InForceIsLatest(s.log, key);
      LatestIsOne(s.log, key, i, k);
    }
  }

  lemma {:induction false} LastIssuedInForce(log: Log, key: TokenKey, token: string, i: nat)
    requires LastIssued(log, key, token, i)
    ensures RefreshTokenOf(InForce(log, key)) == token
    decreases |log|
  {
    if i < |log| - 1 {
      LastIssuedInForce(Front(log), key, token, i);
    }
  }

  lemma RefreshableExactly(log: Log, key: TokenKey)
    ensures RefreshTokenOf(InForce(log, key)) != "" <==> HasRefreshToken(log, key)
  {
    if RefreshTokenOf(InForce(log, key)) != "" {
      var i := IssuerOf(log, key);
    }
    if HasRefreshToken(log, key) {
      var token, i :| token != "" && LastIssued(log, key, token, i);
      LastIssuedInForce(log, key, token, i);
    }
  }

  /** Looking under the shared lock hits exactly while the latest reply is current. */
  lemma LookDecides(s: State, tid: nat)
    requires Reachable(s) && Enabled(s, Look(tid))
    ensures Do(s, Look(tid)).threads[tid].phase == DoneShared(HasCurrent(s.log, s.threads[tid].request.key, s.clock))
  {
    FreshExactly(s, s.threads[tid].request.key);
  }

  /** Under the exclusive lock: present a current token, else refresh if there is something to refresh with, else mint. */
  lemma RecheckDecides(s: State, tid: nat)
    requires Reachable(s) && Enabled(s, Recheck(tid))
    ensures var key, phase := s.threads[tid].request.key, Do(s, Recheck(tid)).threads[tid].phase;
      if HasCurrent(s.log, key, s.clock) then phase == Leaving(true)
      else phase.Ready? && (phase.grant.Refresh? <==> HasRefreshToken(s.log, key))
  {
    var key := s.threads[tid].request.key;
    ReachableInv(s);
    assert Lookup(s.cache, key) == InForce(s.log, key);
    FreshExactly(s, key);
    RefreshableExactly(s.log, key);
  }

  /** Where requests go, and for which scopes: the settings win over the specification, and the token URL stands in. */
  lemma SendsAsCalled(s: State, tid: nat)
    requires Reachable(s) && Enabled(s, Send(tid))
    ensures var t := s.threads[tid];
      && t.call.config.Some?
      && var config := t.call.config.value;
      && var tokenUrl := if config.tokenUrlOverride != "" then config.tokenUrlOverride else t.call.tokenUrl;
      && tokenUrl != ""
      && match t.phase.grant
         case Mint(url, scopes) =>
           url == tokenUrl && scopes == (if config.scopesOverride != [] then config.scopesOverride else t.call.scopes)
         case Refresh(url, _) =>
           url == if config.refreshUrlOverride != "" then config.refreshUrlOverride
                  else if t.call.refreshUrl != "" then t.call.refreshUrl else tokenUrl
  {
    ReachableInv(s);
    assert ThreadOk(s.threads[tid]) && Resolve(s.threads[tid].call) == Some(s.threads[tid].request);
  }

  /**
   * What an answer leads to. It is accepted exactly if its status is a success and it brings an access token;
   * then the token is stored for thirty seconds less than its lifetime and presented. A failed refresh goes on
   * to a mint. The request it answers is the last one sent.
   */
  lemma AnswerDecides(s: State, tid: nat, response: Response) returns (m: nat)
    requires Reachable(s) && Enabled(s, Answer(tid, response))
    ensures m < |s.log| && s.log[m].Sent?
    ensures s.log[m] == Sent(tid, s.threads[tid].request.key, s.threads[tid].phase.grant, s.log[m].at)
    ensures forall k :: m < k < |s.log| ==> s.log[k].Bearer?
    ensures var t, s' := s.threads[tid], Do(s, Answer(tid, response));
      var key, grant, phase := t.request.key, t.phase.grant, s'.threads[tid].phase;
      if response.Response? && 200 <= response.status <= 299 && response.body.Some?
         && response.body.value.accessToken.GetOr("") != "" then
        var reply := response.body.value;
        var token := reply.accessToken.value;
        && s'.log == s.log + [Accepted(tid, key, grant, reply, s.clock), Bearer(tid, key, token, s.clock, false)]
        && s'.cache == s.cache[key := MintedToken(token, s'.cache[key].refreshToken,
                                                  s.clock + reply.expiresIn.GetOr(3600) - 30)]
        && phase == Leaving(true) && s'.threads[tid].headers == t.headers + ["Bearer " + token]
      else
        && s'.log == s.log + [Failed(tid, key)] && s'.cache == s.cache && s'.threads[tid].headers == t.headers
        && phase == if grant.Refresh? then Ready(Mint(key.tokenUrl, t.request.scopes)) else Leaving(false)
  {
    ReachableInv(s);
    var t := s.threads[tid];
    assert s.writer == Some(tid);
    m := PendingSent(s.log);
    if IsAccepted(response) {
      var reply := response.body.value;
      var s' := Do(s, Answer(tid, response));
      var accepted, bearer := Accepted(tid, t.request.key, t.phase.grant, reply, s.clock),
                              Bearer(tid, t.request.key, reply.accessToken.value, s.clock, false);
      assert s.log + [accepted] + [bearer] == s.log + [accepted, bearer];
    }
  }

  /** A mint asks the token endpoint of the key for scopes that belong to the key. */
  lemma MintMatchesKey(s: State, j: nat)
    requires Reachable(s) && j < |s.log| && s.log[j].Sent? && s.log[j].grant.Mint?
    ensures s.log[j].grant.url == s.log[j].key.tokenUrl && Join(s.log[j].grant.scopes, ":") == s.log[j].key.scopeKey
  {
    ReachableInv(s);
    EventOkAt(s.log, j);
  }

  /** The step with which a call of this thread returns. */
  predicate ReturnsFalse(s: State, step: Step)
    requires Enabled(s, step)
  {
    !step.Tick? && Do(s, step).threads[step.tid].phase == Returned(false)
  }

  lemma ReturnsFalseWhen(s: State, step: Step)
    requires Enabled(s, step) && ReturnsFalse(s, step)
    ensures step.UnlockExclusive? || (step.Begin? && Resolve(step.call) == None)
  {
  }

  /**
   * A call that returns false, refused at once or after its requests failed, has inserted no header,
   * and the cache is as it was when the call began or took the exclusive lock.
   */
  lemma FalseChangesNothing(s: State, step: Step)
    requires Reachable(s) && Enabled(s, step) && ReturnsFalse(s, step)
    ensures var s', t := Do(s, step), Do(s, step).threads[step.tid];
      && t.headers == t.entry && s'.cache == s.cache
      && match step
         case Begin(_, call, authorization) => Resolve(call) == None && t.headers == authorization && s'.log == s.log
         case UnlockExclusive(_) => s'.cache == t.before
         case _ => false
  {
    ReturnsFalseWhen(s, step);
    ReachableInv(s);
    assert ThreadOk(s.threads[step.tid]);
    if step.UnlockExclusive? {
      Owns(s, step);
    }
  }

  lemma {:induction false} LastBearerStands(log: Log, tid: nat) returns (j: nat)
    requires LastBearer(log, tid).Some?
    ensures j < |log| && Some(log[j]) == LastBearer(log, tid) && log[j].Bearer? && log[j].tid == tid
    decreases |log|
  {
    if Last(log).Bearer? && Last(log).tid == tid {
      j := |log| - 1;
    } else {
      j := LastBearerStands(Front(log), tid);
    }
  }

  /** A call that returns true has inserted one header, which presents a token for its key. */
  lemma TrueInsertsBearer(s: State, tid: nat) returns (j: nat)
    requires Reachable(s) && tid < |s.threads| && s.threads[tid].phase == Returned(true)
    ensures j < |s.log| && s.log[j].Bearer? && s.log[j].tid == tid && s.log[j].key == s.threads[tid].request.key
    ensures s.threads[tid].headers == s.threads[tid].entry + ["Bearer " + s.log[j].token]
  {
    ReachableInv(s);
    assert ServedOk(s.threads[tid], tid, s.log);
    j := LastBearerStands(s.log, tid);
  }

  ghost predicate NoEmptyTokens(cache: Cache) {
    forall key <- cache :: cache[key].accessToken != ""
  }

  /** No run ever caches an empty token. */
  lemma CachedTokensAreReal(s: State)
    requires Reachable(s)
    ensures NoEmptyTokens(s.cache)
  {
    ReachableInv(s);
    forall key | key in s.cache ensures s.cache[key].accessToken != "" {
      assert Lookup(s.cache, key) == InForce(s.log, key);
      var i := InForceIsLatest(s.log, key);
      EventOkAt(s.log, i);
    }
  }

  // ---- Which calls share a token ----

  /** The scopes of a list, split at their colons. */
  function Pieces(scopes: seq<string>): seq<string> {
    if scopes == [] then [] else Split(scopes[0], ':') + Pieces(scopes[1..])
  }

  /** An empty list counts as one empty scope. */
  function PiecesOrNone(scopes: seq<string>): seq<string> {
    if scopes == [] then [""] else Pieces(scopes)
  }

  lemma {:induction false} SplitScopeKey(scopes: seq<string>)
    ensures Split(Join(scopes, ":"), ':') == PiecesOrNone(scopes)
  {
    if scopes == [] {
      SplitNone("", ':');
    } else if |scopes| == 1 {
      assert Pieces(scopes) == Split(scopes[0], ':') + [] == Split(scopes[0], ':');
    } else {
      SplitScopeKey(scopes[1..]);
      SplitConcat(scopes[0], Join(scopes[1..], ":"), ':');
    }
  }

  /** Two lists of scopes share a key, and so a token, exactly when they are the same once split at their colons. */
  lemma SharedScopeKey(a: seq<string>, b: seq<string>)
    ensures Join(a, ":") == Join(b, ":") <==> PiecesOrNone(a) == PiecesOrNone(b)
  {
    SplitScopeKey(a);
    SplitScopeKey(b);
    JoinSplit(Join(a, ":"), ':');
    JoinSplit(Join(b, ":"), ':');
  }

  ghost predicate NoColon(scopes: seq<string>) {
    forall scope <- scopes :: ':' !in scope
  }

  lemma {:induction false} PiecesOfNoColon(scopes: seq<string>)
    requires NoColon(scopes)
    ensures Pieces(scopes) == scopes
  {
    if scopes != [] {
      SplitNone(scopes[0], ':');
      PiecesOfNoColon(scopes[1..]);
    }
  }

  /** A list whose key another list without colons has too. */
  ghost predicate IsAmbiguous(a: seq<string>) {
    exists b :: b != a && NoColon(b) && Join(b, ":") == Join(a, ":")
  }

  /** Those are the lists with a colon in a scope, and the two without content. */
  lemma AmbiguousExactly(a: seq<string>)
    ensures IsAmbiguous(a) <==> !NoColon(a) || a in [[], [""]]
  {
    if IsAmbiguous(a) && NoColon(a) {
      var b :| b != a && NoColon(b) && Join(b, ":") == Join(a, ":");
      SharedScopeKey(a, b);
      PiecesOfNoColon(a);
      PiecesOfNoColon(b);
    }
    if !NoColon(a) {
      var b := Split(Join(a, ":"), ':');
      JoinSplit(Join(a, ":"), ':');
      assert b != a && NoColon(b) && Join(b, ":") == Join(a, ":");
    } else if a == [] {
      assert Join([""], ":") == Join(a, ":") && NoColon([""]);
    } else if a == [""] {
      assert Join([], ":") == Join(a, ":") && NoColon([]);
    }
  }

  /** Such as these. */
  lemma ColonSharesKey()
    ensures Join(["a:b"], ":") == Join(["a", "b"], ":") && IsAmbiguous(["a:b"])
  {
    assert ["a", "b"][1..] == ["b"];
    assert ':' in "a:b" && "a:b" in ["a:b"];
    AmbiguousExactly(["a:b"]);
  }
}
