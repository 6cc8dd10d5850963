/** The access token provider: any number of callers, a one-slot channel as the
    lock, a cached token that may expire or be invalidated. Every numbered
    program point is one atomic step; the steps of different callers interleave
    freely and time passes between them. */
module TokenProvider {
  import opened Wrappers

  datatype Token = Token(id: nat, obtainedAt: int, expiresIn: int)
  {
    /** A token without a positive lifetime never expires. */
    predicate IsExpired(now: int) {
      expiresIn > 0 && now > obtainedAt + expiresIn
    }
  }

  /** How a call ends. `Cached` carries what was returned and the time at which
      it had been checked. */
  datatype Outcome =
    | Cached(returned: Option<Token>, checkedAt: int)
    | Fresh(token: Token)
    | Failed

  /** Where a caller is. The first group runs GetAccessToken, the second
      InvalidateCache. */
  datatype Pc =
    | Reading
    | Checking(copy: Option<Token>)
    | Waiting
    | Rechecking
    | Reusing(checked: Token, checkedAt: int)
    | Resolving
    | Exchanging
    | Storing(token: Token)
    | Releasing(outcome: Outcome)
    | Returned(outcome: Outcome)
    | InvalidateWaiting
    | InvalidateHolding
    | InvalidateReleasing
    | InvalidateDone
  {
    /** Between receiving the lock token and sending it back. */
    predicate HoldsLock() {
      Rechecking? || Reusing? || Resolving? || Exchanging? || Storing? || Releasing?
      || InvalidateHolding? || InvalidateReleasing?
    }
  }

  /** The history: successful stores, and invalidations that removed a token. */
  datatype Event = Stored(token: Token, at: int) | Cleared(at: int)

  datatype State = State(
    configuredEndpoint: string,
    lockCh: nat,
    cachedTokens: Option<Token>,
    resolvedEndpoint: string,
    now: int,
    threads: map<nat, Pc>,
    exchanges: nat,
    log: seq<Event>)
  {
    function With(t: nat, pc: Pc): State {
      this.(threads := threads[t := pc])
    }

    ghost predicate At(t: nat, pc: Pc) {
      t in threads && threads[t] == pc
    }

    ghost function Holders(): set<nat> {
      set t | t in threads && threads[t].HoldsLock()
    }
  }

  ghost predicate Init(s: State) {
    && s.lockCh == 1 && s.cachedTokens == None && s.resolvedEndpoint == ""
    && s.threads == map[] && s.exchanges == 0 && s.log == []
  }

  /** `Abort` is a failure before the identity provider's endpoint is resolved;
      `discovered` and `result` are absent when those requests fail. */
  datatype Step =
    | Tick(elapsed: nat)
    | Call(t: nat)
    | CallInvalidate(t: nat)
    | Read(t: nat)
    | Check(t: nat)
    | Acquire(t: nat)
    | Cancel(t: nat)
    | Recheck(t: nat)
    | Reuse(t: nat)
    | Abort(t: nat)
    | Resolve(t: nat, discovered: Option<string>)
    | Exchange(t: nat, result: Option<Token>)
    | Store(t: nat)
    | Release(t: nat)
    | InvalidateAcquire(t: nat)
    | InvalidateTimeout(t: nat)
    | Invalidate(t: nat)
    | InvalidateRelease(t: nat)

  /** Whether the step can be taken. A receive needs a token in the channel, a
      send needs room in it. */
  ghost predicate Enabled(s: State, step: Step) {
    match step
    case Tick(_) => true
    case Call(t) => t !in s.threads
    case CallInvalidate(t) => t !in s.threads
    case Read(t) => s.At(t, Reading)
    case Check(t) => t in s.threads && s.threads[t].Checking?
    case Acquire(t) => s.At(t, Waiting) && s.lockCh > 0
    case Cancel(t) => s.At(t, Waiting)
    case Recheck(t) => s.At(t, Rechecking)
    case Reuse(t) => t in s.threads && s.threads[t].Reusing?
    case Abort(t) => s.At(t, Resolving)
    case Resolve(t, discovered) => s.At(t, Resolving) && (discovered.Some? ==> discovered.value != "")
    case Exchange(t, result) => s.At(t, Exchanging) && (result.Some? ==> result.value.obtainedAt == s.now)
    case Store(t) => t in s.threads && s.threads[t].Storing?
    case Release(t) => t in s.threads && s.threads[t].Releasing? && s.lockCh < 1
    case InvalidateAcquire(t) => s.At(t, InvalidateWaiting) && s.lockCh > 0
    case InvalidateTimeout(t) => s.At(t, InvalidateWaiting)
    case Invalidate(t) => s.At(t, InvalidateHolding)
    case InvalidateRelease(t) => s.At(t, InvalidateReleasing) && s.lockCh < 1
  }

  predicate IsLive(token: Option<Token>, now: int) {
    token.Some? && !token.value.IsExpired(now)
  }

  function Apply(s: State, step: Step): State
    requires Enabled(s, step)
  {
    match step
    case Tick(elapsed) => s.(now := s.now + elapsed)
    case Call(t) => s.With(t, Reading)
    case CallInvalidate(t) => s.With(t, InvalidateWaiting)
    case Read(t) => s.With(t, Checking(s.cachedTokens))
    case Check(t) =>
      var copy := s.threads[t].copy;
      s.With(t, if IsLive(copy, s.now) then Returned(Cached(copy, s.now)) else Waiting)
    case Acquire(t) => s.(lockCh := s.lockCh - 1).With(t, Rechecking)
    case Cancel(t) => s.With(t, Returned(Failed))
    case Recheck(t) =>
      s.With(t, if IsLive(s.cachedTokens, s.now) then Reusing(s.cachedTokens.value, s.now) else Resolving)
    case Reuse(t) => s.With(t, Releasing(Cached(s.cachedTokens, s.threads[t].checkedAt)))
    case Abort(t) => s.With(t, Releasing(Failed))
    case Resolve(t, discovered) =>
      if s.resolvedEndpoint != "" then s.With(t, Exchanging)
      else if s.configuredEndpoint != "" then s.(resolvedEndpoint := s.configuredEndpoint).With(t, Exchanging)
      else if discovered.Some? then s.(resolvedEndpoint := discovered.value).With(t, Exchanging)
      else s.With(t, Releasing(Failed))
    case Exchange(t, result) =>
      if result.Some? then s.(exchanges := s.exchanges + 1).With(t, Storing(result.value))
      else s.With(t, Releasing(Failed))
    case Store(t) =>
      var token := s.threads[t].token;
      s.(cachedTokens := Some(token), log := s.log + [Stored(token, s.now)]).With(t, Releasing(Fresh(token)))
    case Release(t) => s.(lockCh := s.lockCh + 1).With(t, Returned(s.threads[t].outcome))
    case InvalidateAcquire(t) => s.(lockCh := s.lockCh - 1).With(t, InvalidateHolding)
    case InvalidateTimeout(t) => s.With(t, InvalidateDone)
    case Invalidate(t) =>
      var s' := s.(cachedTokens := None).With(t, InvalidateReleasing);
      if s.cachedTokens == None then s' else s'.(log := s.log + [Cleared(s.now)])
    case InvalidateRelease(t) => s.(lockCh := s.lockCh + 1).With(t, InvalidateDone)
  }

  ghost predicate IsBehavior(states: seq<State>, steps: seq<Step>) {
    && |states| == |steps| + 1 && Init(states[0])
    && forall i :: 0 <= i < |steps| ==> Enabled(states[i], steps[i]) && states[i + 1] == Apply(states[i], steps[i])
  }

  // ---------- The lock ----------

  ghost predicate LockInvariant(s: State) {
    s.lockCh + |s.Holders()| == 1
  }

  lemma HoldersAfter(s: State, s': State, t: nat, pc: Pc)
    requires s'.threads == s.threads[t := pc]
    ensures s'.Holders() == if pc.HoldsLock() then s.Holders() + {t} else s.Holders() - {t}
  {
  }

  /** The thread a step belongs to, and where the step takes it. */
  function Actor(step: Step): nat
    requires !step.Tick?
  {
    step.t
  }

  /** A step that enters the critical section takes the channel's token, one that
      leaves it puts the token back, all others leave the channel alone. */
  lemma ChannelFollowsActor(s: State, step: Step)
    requires Enabled(s, step) && !step.Tick?
    ensures var t, s' := Actor(step), Apply(s, step);
            && t in s'.threads && s'.threads == s.threads[t := s'.threads[t]]
            && var held := t in s.threads && s.threads[t].HoldsLock();
               s'.lockCh == s.lockCh + (if held then 1 else 0) - (if s'.threads[t].HoldsLock() then 1 else 0)
  {
  }

  lemma LockPreserved(s: State, step: Step)
    requires LockInvariant(s) && Enabled(s, step)
    ensures LockInvariant(Apply(s, step))
  {
    if step.Tick? {
      assert Apply(s, step).Holders() == s.Holders();
    } else {
      var t, s' := Actor(step), Apply(s, step);
      ChannelFollowsActor(s, step);
      assert t in s.Holders() <==> t in s.threads && s.threads[t].HoldsLock();
      hide Enabled, Apply;
      HoldersAfter(s, s', t, s'.threads[t]);
    }
  }

  lemma UniqueHolder(s: State, t: nat, u: nat)
    requires LockInvariant(s) && t in s.Holders() && u in s.Holders()
    ensures t == u
  {
    var others := s.Holders() - {t};
    assert |others| == 0;
    assert u !in others;
  }

  // ---------- The cached token ----------

  /** A token returned from the cache was there, and alive when checked. */
  ghost predicate OutcomeSound(outcome: Outcome, now: int) {
    outcome.Cached? ==>
      outcome.returned.Some? && outcome.checkedAt <= now && !outcome.returned.value.IsExpired(outcome.checkedAt)
  }

  /** What a thread's position says about the shared state. */
  ghost predicate PcInvariant(s: State, pc: Pc) {
    match pc
    case Reusing(checked, at) => s.cachedTokens == Some(checked) && at <= s.now && !checked.IsExpired(at)
    case Resolving => !IsLive(s.cachedTokens, s.now)
    case Exchanging => !IsLive(s.cachedTokens, s.now) && s.resolvedEndpoint != ""
    case Storing(token) => !IsLive(s.cachedTokens, s.now) && token.obtainedAt <= s.now
    case Releasing(outcome) => OutcomeSound(outcome, s.now)
    case Returned(outcome) => OutcomeSound(outcome, s.now)
    case _ => true
  }

  ghost predicate CacheInvariant(s: State) {
    forall t :: t in s.threads ==> PcInvariant(s, s.threads[t])
  }

  /** Only a step of the thread that holds the lock writes the cached token. */
  lemma OnlyHolderWrites(s: State, step: Step)
    requires Enabled(s, step) && Apply(s, step).cachedTokens != s.cachedTokens
    ensures !step.Tick? && Actor(step) in s.Holders()
  {
  }

  lemma ActorPcPreserved(s: State, step: Step)
    requires CacheInvariant(s) && Enabled(s, step) && !step.Tick?
    ensures PcInvariant(Apply(s, step), Apply(s, step).threads[Actor(step)])
  {
    var t := Actor(step);
    if t in s.threads {
      assert PcInvariant(s, s.threads[t]);
    }
  }

  lemma OtherPcPreserved(s: State, step: Step, u: nat)
    requires LockInvariant(s) && Enabled(s, step)
    requires u in s.threads && PcInvariant(s, s.threads[u]) && (step.Tick? || Actor(step) != u)
    ensures u in Apply(s, step).threads && PcInvariant(Apply(s, step), s.threads[u])
  {
    if Apply(s, step).cachedTokens != s.cachedTokens {
      OnlyHolderWrites(s, step);
      if s.threads[u].HoldsLock() {
        UniqueHolder(s, Actor(step), u);
      }
    }
  }

  lemma CachePreserved(s: State, step: Step)
    requires LockInvariant(s) && CacheInvariant(s) && Enabled(s, step)
    ensures CacheInvariant(Apply(s, step))
  {
    var s' := Apply(s, step);
    forall u | u in s'.threads ensures PcInvariant(s', s'.threads[u]) {
      if !step.Tick? && u == Actor(step) {
        ActorPcPreserved(s, step);
      } else {
        OtherPcPreserved(s, step, u);
      }
    }
  }

  // ---------- The history ----------

  /** The token that should be cached after a history. */
  function CachedBy(log: seq<Event>): Option<Token> {
    if log == [] then None
    else match log[|log| - 1] case Stored(token, _) => Some(token) case Cleared(_) => None
  }

  /** Between the two stores the first token was removed, or it had expired by
      the time of the second. */
  ghost predicate IsSeparated(log: seq<Event>, i: int, j: int)
    requires 0 <= i < j < |log|
  {
    log[i].Stored? && log[j].Stored? ==>
      (exists k :: i < k < j && log[k].Cleared?) || log[i].token.IsExpired(log[j].at)
  }

  /** Only a token just stored can be removed. */
  ghost predicate RemovesAToken(log: seq<Event>, i: int)
    requires 0 <= i < |log|
  {
    log[i].Cleared? ==> i > 0 && log[i - 1].Stored?
  }

  ghost predicate LogInvariant(s: State) {
    && s.cachedTokens == CachedBy(s.log)
    && (forall i :: 0 <= i < |s.log| ==> s.log[i].at <= s.now)
    && (forall i, j :: 0 <= i < j < |s.log| ==> IsSeparated(s.log, i, j))
    && (forall i :: 0 <= i < |s.log| ==> RemovesAToken(s.log, i))
  }

  lemma SeparatedAfterStore(log: seq<Event>, token: Token, now: int, i: int)
    requires forall k :: 0 <= k < |log| ==> log[k].at <= now
    requires forall k, j :: 0 <= k < j < |log| ==> IsSeparated(log, k, j)
    requires !IsLive(CachedBy(log), now)
    requires 0 <= i < |log|
    ensures IsSeparated(log + [Stored(token, now)], i, |log|)
  {
    var longer := log + [Stored(token, now)];
    var last := |log| - 1;
    if log[i].Stored? && i < last {
      if log[last].Cleared? {
        assert longer[last].Cleared?;
      } else {
        assert IsSeparated(log, i, last);
        if k :| i < k < last && log[k].Cleared? {
          assert longer[k].Cleared?;
        }
      }
    }
  }

  lemma LogAppended(log: seq<Event>, event: Event)
    requires forall i, j :: 0 <= i < j < |log| ==> IsSeparated(log, i, j)
    ensures forall i, j :: 0 <= i < j < |log| ==> IsSeparated(log + [event], i, j)
  {
    forall i, j | 0 <= i < j < |log| ensures IsSeparated(log + [event], i, j) {
      assert IsSeparated(log, i, j);
      if k :| i < k < j && log[k].Cleared? {
        assert (log + [event])[k].Cleared?;
      }
    }
  }

  lemma LogPreserved(s: State, step: Step)
    requires CacheInvariant(s) && LogInvariant(s) && Enabled(s, step)
    ensures LogInvariant(Apply(s, step))
  {
    var s' := Apply(s, step);
    if s'.log != s.log {
      LogAppended(s.log, s'.log[|s.log|]);
      if step.Store? {
        assert PcInvariant(s, s.threads[step.t]);
        forall i | 0 <= i < |s.log| ensures IsSeparated(s'.log, i, |s.log|) {
          SeparatedAfterStore(s.log, s.threads[step.t].token, s.now, i);
        }
      }
      forall i | 0 <= i < |s'.log| ensures RemovesAToken(s'.log, i) {
        if i < |s.log| {
          assert RemovesAToken(s.log, i);
        }
      }
    }
  }

  function Stores(log: seq<Event>): nat {
    if log == [] then 0 else Stores(log[..|log| - 1]) + if log[|log| - 1].Stored? then 1 else 0
  }

  function Clears(log: seq<Event>): nat {
    if log == [] then 0 else Clears(log[..|log| - 1]) + if log[|log| - 1].Cleared? then 1 else 0
  }

  /** How many stored tokens were replaced by the very next event. */
  function Replaced(log: seq<Event>): nat {
    if |log| < 2 then 0
    else
      var n := |log| - 1;
      Replaced(log[..n]) + if log[n - 1].Stored? && log[n].Stored? then 1 else 0
  }

  /** Every store is accounted for exactly once: its token was removed, was
      replaced, or is the one cached now. */
  lemma {:induction false} StoresAreAccountedFor(log: seq<Event>)
    requires forall i :: 0 <= i < |log| ==> RemovesAToken(log, i)
    ensures Stores(log) == Clears(log) + Replaced(log) + (if CachedBy(log).Some? then 1 else 0)
    decreases |log|
  {
    var n := |log| - 1;
    if n >= 0 {
      var front := log[..n];
      forall i | 0 <= i < |front| ensures RemovesAToken(front, i) {
        assert RemovesAToken(log, i);
      }
      StoresAreAccountedFor(front);
      assert RemovesAToken(log, n);
      if n > 0 {
        assert front[n - 1] == log[n - 1];
      }
    }
  }

  // ---------- Counting exchanges ----------

  ghost predicate SomeoneStores(s: State) {
    exists t :: t in s.threads && s.threads[t].Storing?
  }

  /** Successful exchanges are the stores made plus the one about to be made. */
  ghost predicate ExchangeInvariant(s: State) {
    s.exchanges == Stores(s.log) + if SomeoneStores(s) then 1 else 0
  }

  lemma StoringThreads(s: State, s': State, t: nat, pc: Pc)
    requires s'.threads == s.threads[t := pc]
    ensures SomeoneStores(s') <==> pc.Storing? || exists u :: u != t && u in s.threads && s.threads[u].Storing?
    ensures SomeoneStores(s) <==>
            (t in s.threads && s.threads[t].Storing?) || exists u :: u != t && u in s.threads && s.threads[u].Storing?
  {
    if pc.Storing? { assert t in s'.threads; }
    if u :| u != t && u in s.threads && s.threads[u].Storing? { assert u in s'.threads && s'.threads[u].Storing?; }
    if u :| u in s'.threads && s'.threads[u].Storing? { assert u == t || u in s.threads; }
  }

  lemma OthersDoNotStore(s: State, t: nat)
    requires LockInvariant(s) && t in s.Holders()
    ensures !exists u :: u != t && u in s.threads && s.threads[u].Storing?
  {
    forall u | u in s.threads && s.threads[u].Storing? ensures u == t {
      UniqueHolder(s, t, u);
    }
  }

  lemma ExchangesPreserved(s: State, step: Step)
    requires LockInvariant(s) && ExchangeInvariant(s) && Enabled(s, step)
    ensures ExchangeInvariant(Apply(s, step))
  {
    var s' := Apply(s, step);
    assert s'.log != s.log ==> s'.log[..|s'.log| - 1] == s.log;
    if step.Tick? {
      assert s'.threads == s.threads;
    } else {
      var t := Actor(step);
      var stores, stores' := t in s.threads && s.threads[t].Storing?, s'.threads[t].Storing?;
      StoringThreads(s, s', t, s'.threads[t]);
      if step.Store? || step.Exchange? {
        OthersDoNotStore(s, t);
      }
    }
  }

  // ---------- Every reachable state ----------

  ghost predicate Invariant(s: State) {
    LockInvariant(s) && CacheInvariant(s) && LogInvariant(s) && ExchangeInvariant(s)
  }

  lemma {:induction false} ReachableInvariant(states: seq<State>, steps: seq<Step>, n: nat)
    requires IsBehavior(states, steps) && n < |states|
    ensures Invariant(states[n])
  {
    if n == 0 {
      assert states[0].Holders() == {};
    } else {
      ReachableInvariant(states, steps, n - 1);
      var s, step := states[n - 1], steps[n - 1];
      assert Enabled(s, step) && states[n - 1 + 1] == Apply(s, step);
      LockPreserved(s, step);
      CachePreserved(s, step);
      LogPreserved(s, step);
      ExchangesPreserved(s, step);
    }
  }

  /** In every interleaving: the channel's token plus the threads in the critical
      section make one, so at most one exchange is in flight and the deferred
      release always finds room in the channel. */
  lemma MutualExclusion(states: seq<State>, steps: seq<Step>, n: nat)
    requires IsBehavior(states, steps) && n < |states|
    ensures states[n].lockCh + |states[n].Holders()| == 1
    ensures forall t, u :: states[n].At(t, Exchanging) && states[n].At(u, Exchanging) ==> t == u
    ensures forall t :: t in states[n].threads && states[n].threads[t].Releasing? ==> Enabled(states[n], Release(t))
    ensures forall t :: states[n].At(t, InvalidateReleasing) ==> Enabled(states[n], InvalidateRelease(t))
  {
    var s := states[n];
    ReachableInvariant(states, steps, n);
    forall t, u | s.At(t, Exchanging) && s.At(u, Exchanging) ensures t == u {
      UniqueHolder(s, t, u);
    }
    forall t | t in s.threads && s.threads[t].HoldsLock() ensures s.lockCh == 0 {
      assert t in s.Holders();
    }
  }

  /** Every token handed out from the cache was really there and had not expired
      at the moment it was checked, in spite of concurrent invalidations. */
  lemma CachedTokensWereLive(states: seq<State>, steps: seq<Step>, n: nat, t: nat)
    requires IsBehavior(states, steps) && n < |states|
    requires t in states[n].threads && states[n].threads[t].Returned? && states[n].threads[t].outcome.Cached?
    ensures var outcome := states[n].threads[t].outcome;
            && outcome.returned.Some? && outcome.checkedAt <= states[n].now
            && var token := outcome.returned.value;
               token.expiresIn <= 0 || outcome.checkedAt <= token.obtainedAt + token.expiresIn
  {
    ReachableInvariant(states, steps, n);
    assert PcInvariant(states[n], states[n].threads[t]);
  }

  /** Tokens that gave way to another because they had expired: those replaced,
      and the cached one if it is about to be. */
  function Expired(log: seq<Event>, now: int): nat {
    Replaced(log) + if CachedBy(log).Some? && !IsLive(CachedBy(log), now) then 1 else 0
  }

  /** In every interleaving, successful exchanges are exactly the removals, the
      replacements of expired tokens, the token cached and the one about to be. */
  lemma ExchangesAreAccountedFor(states: seq<State>, steps: seq<Step>, n: nat)
    requires IsBehavior(states, steps) && n < |states|
    ensures var s := states[n];
            s.exchanges == Clears(s.log) + Replaced(s.log)
                           + (if s.cachedTokens.Some? then 1 else 0) + (if SomeoneStores(s) then 1 else 0)
  {
    ReachableInvariant(states, steps, n);
    StoresAreAccountedFor(states[n].log);
  }

  /** So they never exceed one plus the removals plus the expiries, and they
      reach that number exactly while a live token is cached or about to be. */
  lemma ExchangesAreBounded(states: seq<State>, steps: seq<Step>, n: nat)
    requires IsBehavior(states, steps) && n < |states|
    ensures var s := states[n]; s.exchanges <= 1 + Clears(s.log) + Expired(s.log, s.now)
    ensures var s := states[n];
            s.exchanges == 1 + Clears(s.log) + Expired(s.log, s.now) <==>
              IsLive(s.cachedTokens, s.now) || SomeoneStores(s)
  {
    var s := states[n];
    ReachableInvariant(states, steps, n);
    ExchangesAreAccountedFor(states, steps, n);
    if SomeoneStores(s) {
      var t :| t in s.threads && s.threads[t].Storing?;
      assert PcInvariant(s, s.threads[t]);
    }
  }

  /** Two successful stores always have a removal of a token between them, or the
      first token had expired when the second was stored. */
  lemma StoresAreSeparated(states: seq<State>, steps: seq<Step>, n: nat, i: nat, j: nat)
    requires IsBehavior(states, steps) && n < |states|
    requires i < j < |states[n].log| && states[n].log[i].Stored? && states[n].log[j].Stored?
    ensures (exists k :: i < k < j && states[n].log[k].Cleared?)
            || states[n].log[i].token.IsExpired(states[n].log[j].at)
  {
    ReachableInvariant(states, steps, n);
    assert IsSeparated(states[n].log, i, j);
  }

  /** A token replaced by the very next event had expired when its successor was
      stored. */
  lemma ReplacedHadExpired(states: seq<State>, steps: seq<Step>, n: nat, i: nat)
    requires IsBehavior(states, steps) && n < |states|
    requires i + 1 < |states[n].log| && states[n].log[i].Stored? && states[n].log[i + 1].Stored?
    ensures states[n].log[i].token.IsExpired(states[n].log[i + 1].at)
  {
    StoresAreSeparated(states, steps, n, i, i + 1);
  }

  /** The resolved endpoint is written once: from then on it never changes, and
      a configured endpoint is the only value it can take. */
  lemma {:induction false} EndpointIsWrittenOnce(states: seq<State>, steps: seq<Step>, m: nat, n: nat)
    requires IsBehavior(states, steps) && m <= n < |states|
    ensures states[m].resolvedEndpoint != "" ==> states[n].resolvedEndpoint == states[m].resolvedEndpoint
    ensures var configured := states[0].configuredEndpoint;
            states[n].configuredEndpoint == configured
            && (configured != "" ==> states[n].resolvedEndpoint in {"", configured})
    decreases n
  {
    if n > 0 {
      assert Enabled(states[n - 1], steps[n - 1]) && states[n - 1 + 1] == Apply(states[n - 1], steps[n - 1]);
      EndpointIsWrittenOnce(states, steps, if m < n then m else n - 1, n - 1);
    }
  }

  /** A thread in the critical section is never stuck: some step of it can be
      taken, whatever the other threads do. */
  lemma HolderCanProceed(states: seq<State>, steps: seq<Step>, n: nat, t: nat)
    requires IsBehavior(states, steps) && n < |states| && t in states[n].Holders()
    ensures exists step :: Enabled(states[n], step) && !step.Tick? && Actor(step) == t
  {
    var s := states[n];
    ReachableInvariant(states, steps, n);
    assert s.lockCh == 0;
    var step := match s.threads[t]
      case Rechecking => Recheck(t)
      case Reusing(_, _) => Reuse(t)
      case Resolving => Resolve(t, None)
      case Exchanging => Exchange(t, None)
      case Storing(_) => Store(t)
      case Releasing(_) => Release(t)
      case InvalidateHolding => Invalidate(t)
      case _ => InvalidateRelease(t);
    assert Enabled(s, step);
  }
}
