/** What callers of the token provider get, over all its behaviours, and where the
    tokens and the endpoint come from. */
module TokenOutcomes {
  import opened TokenProvider
  import opened Wrappers

  // ---------- What a caller gets ----------

  /** What has become of a thread's own attempt so far. */
  datatype Verdict = Open | Got(token: Token) | GaveUp

  /** A step with which thread `t` fails: a cancelled wait, a failure before the
      endpoint is resolved, an endpoint that cannot be resolved, a failed
      exchange. */
  predicate Fails(s: State, step: Step, t: nat) {
    || step == Cancel(t) || step == Abort(t) || step == Exchange(t, None)
    || (step == Resolve(t, None) && s.resolvedEndpoint == "" && s.configuredEndpoint == "")
  }

  /** The verdict after one more step. */
  function NextVerdict(s: State, step: Step, t: nat, verdict: Verdict): Verdict {
    if step.Exchange? && step.t == t && step.result.Some? then Got(step.result.value)
    else if Fails(s, step, t) then GaveUp
    else verdict
  }

  /** The verdict of thread `t` after `n` steps: that of its latest decisive one. */
  ghost function VerdictOf(states: seq<State>, steps: seq<Step>, n: nat, t: nat): Verdict
    requires n <= |steps| <= |states|
  {
    if n == 0 then Open else NextVerdict(states[n - 1], steps[n - 1], t, VerdictOf(states, steps, n - 1, t))
  }

  /** The outcome that goes with a verdict. */
  predicate Agrees(outcome: Outcome, verdict: Verdict) {
    match verdict
    case Open => outcome.Cached?
    case Got(token) => outcome == Fresh(token)
    case GaveUp => outcome == Failed
  }

  ghost predicate PositionAgrees(s: State, t: nat, verdict: Verdict) {
    if t !in s.threads then verdict == Open
    else
      match s.threads[t]
      case Storing(token) => verdict == Got(token)
      case Releasing(outcome) => Agrees(outcome, verdict)
      case Returned(outcome) => Agrees(outcome, verdict)
      case _ => verdict == Open
  }

  lemma PositionOfOther(s: State, step: Step, t: nat, verdict: Verdict)
    requires Enabled(s, step) && PositionAgrees(s, t, verdict) && (step.Tick? || Actor(step) != t)
    ensures PositionAgrees(Apply(s, step), t, verdict) && NextVerdict(s, step, t, verdict) == verdict
  {
    if !step.Tick? {
      ChannelFollowsActor(s, step);
    } else {
      assert Apply(s, step).threads == s.threads;
    }
    assert NextVerdict(s, step, t, verdict) == verdict;
    hide Apply, Enabled, NextVerdict;
  }

  lemma PositionOfActor(s: State, step: Step, verdict: Verdict)
    requires Enabled(s, step) && !step.Tick? && PositionAgrees(s, Actor(step), verdict)
    ensures PositionAgrees(Apply(s, step), Actor(step), NextVerdict(s, step, Actor(step), verdict))
    ensures verdict != Open ==> NextVerdict(s, step, Actor(step), verdict) == verdict
  {
  }

  lemma PositionStep(s: State, step: Step, t: nat, verdict: Verdict)
    requires Enabled(s, step) && PositionAgrees(s, t, verdict)
    ensures PositionAgrees(Apply(s, step), t, NextVerdict(s, step, t, verdict))
    ensures verdict != Open ==> NextVerdict(s, step, t, verdict) == verdict
  {
    hide *;
    if step.Tick? || Actor(step) != t {
      PositionOfOther(s, step, t, verdict);
    } else {
      PositionOfActor(s, step, verdict);
    }
  }

  lemma {:induction false} PositionsAgree(states: seq<State>, steps: seq<Step>, n: nat, t: nat)
    requires IsBehavior(states, steps) && n < |states|
    ensures PositionAgrees(states[n], t, VerdictOf(states, steps, n, t))
  {
    if n > 0 {
      PositionsAgree(states, steps, n - 1, t);
      assert Enabled(states[n - 1], steps[n - 1]) && states[n - 1 + 1] == Apply(states[n - 1], steps[n - 1]);
      hide Apply, Enabled, PositionAgrees, NextVerdict;
      PositionStep(states[n - 1], steps[n - 1], t, VerdictOf(states, steps, n - 1, t));
    }
  }

  lemma VerdictNext(states: seq<State>, steps: seq<Step>, n: nat, t: nat)
    requires IsBehavior(states, steps) && n < |steps| && VerdictOf(states, steps, n, t) != Open
    ensures VerdictOf(states, steps, n + 1, t) == VerdictOf(states, steps, n, t)
  {
    assert |states| == |steps| + 1 && Enabled(states[n], steps[n]);
    assert VerdictOf(states, steps, n + 1, t)
        == NextVerdict(states[n], steps[n], t, VerdictOf(states, steps, n, t));
    hide *;
    PositionsAgree(states, steps, n, t);
    PositionStep(states[n], steps[n], t, VerdictOf(states, steps, n, t));
  }

  /** A verdict is final. */
  lemma {:induction false} VerdictStays(states: seq<State>, steps: seq<Step>, m: nat, n: nat, t: nat)
    requires IsBehavior(states, steps) && m <= n < |states| && VerdictOf(states, steps, m, t) != Open
    ensures VerdictOf(states, steps, n, t) == VerdictOf(states, steps, m, t)
    decreases n
  {
    assert |states| == |steps| + 1;
    hide *;
    if m < n {
      VerdictStays(states, steps, m, n - 1, t);
      VerdictNext(states, steps, n - 1, t);
    }
  }

  lemma {:induction false} VerdictHasReason(states: seq<State>, steps: seq<Step>, n: nat, t: nat)
    requires n <= |steps| <= |states|
    ensures var verdict := VerdictOf(states, steps, n, t);
            && (verdict.Got? ==> exists i :: 0 <= i < n && steps[i] == Exchange(t, Some(verdict.token)))
            && (verdict.GaveUp? ==> exists i :: 0 <= i < n && Fails(states[i], steps[i], t))
  {
    if n > 0 {
      VerdictHasReason(states, steps, n - 1, t);
      assert steps[n - 1].Exchange? && steps[n - 1].t == t && steps[n - 1].result.Some? ==>
          steps[n - 1] == Exchange(t, Some(steps[n - 1].result.value));
    }
  }

  /** Whoever exchanges a token gets that token, in every interleaving. */
  lemma ExchangedIsReturned(states: seq<State>, steps: seq<Step>, n: nat, i: nat, t: nat, token: Token)
    requires IsBehavior(states, steps) && i < n < |states| && steps[i] == Exchange(t, Some(token))
    ensures t in states[n].threads
    ensures states[n].threads[t].Returned? ==> states[n].threads[t].outcome == Fresh(token)
  {
    VerdictStays(states, steps, i + 1, n, t);
    PositionsAgree(states, steps, n, t);
  }

  /** Whoever fails gets a failure. */
  lemma FailureIsReturned(states: seq<State>, steps: seq<Step>, n: nat, i: nat, t: nat)
    requires IsBehavior(states, steps) && i < n < |states| && Fails(states[i], steps[i], t)
    ensures t in states[n].threads
    ensures states[n].threads[t].Returned? ==> states[n].threads[t].outcome == Failed
  {
    assert VerdictOf(states, steps, i + 1, t) == GaveUp;
    VerdictStays(states, steps, i + 1, n, t);
    PositionsAgree(states, steps, n, t);
  }

  /** And conversely: a fresh token was exchanged by the same thread, a failure is
      its own, and whoever did neither got a token from the cache. */
  lemma OutcomesHaveReasons(states: seq<State>, steps: seq<Step>, n: nat, t: nat)
    requires IsBehavior(states, steps) && n < |states| && t in states[n].threads && states[n].threads[t].Returned?
    ensures var outcome := states[n].threads[t].outcome;
            && (outcome.Fresh? ==> exists i :: 0 <= i < n && steps[i] == Exchange(t, Some(outcome.token)))
            && (outcome.Failed? ==> exists i :: 0 <= i < n && Fails(states[i], steps[i], t))
    ensures (forall i :: 0 <= i < n ==> !(steps[i].Exchange? && steps[i].t == t) && !Fails(states[i], steps[i], t)) ==>
              states[n].threads[t].outcome.Cached?
  {
    PositionsAgree(states, steps, n, t);
    VerdictHasReason(states, steps, n, t);
  }

  // ---------- What is in the cache ----------

  /** The token came out of some exchange. */
  ghost predicate WasExchanged(steps: seq<Step>, n: nat, token: Token)
    requires n <= |steps|
  {
    exists i, t :: 0 <= i < n && steps[i] == Exchange(t, Some(token))
  }

  /** The token that a thread has in its hands. */
  function Carried(pc: Pc): Option<Token> {
    match pc
    case Checking(copy) => copy
    case Reusing(checked, _) => Some(checked)
    case Storing(token) => Some(token)
    case Releasing(Cached(returned, _)) => returned
    case Releasing(Fresh(token)) => Some(token)
    case Returned(Cached(returned, _)) => returned
    case Returned(Fresh(token)) => Some(token)
    case _ => None
  }

  ghost predicate IsExchanged(token: Option<Token>, steps: seq<Step>, n: nat)
    requires n <= |steps|
  {
    token.Some? ==> WasExchanged(steps, n, token.value)
  }

  ghost predicate HoldsExchanged(s: State, steps: seq<Step>, n: nat)
    requires n <= |steps|
  {
    && IsExchanged(s.cachedTokens, steps, n)
    && forall t :: t in s.threads ==> IsExchanged(Carried(s.threads[t]), steps, n)
  }

  /** Tokens are passed on: a thread gets one from the cache or an exchange, and
      the cache gets one from a thread. */
  lemma TokensArePassedOn(s: State, step: Step)
    requires Enabled(s, step)
    ensures var s' := Apply(s, step);
            && (s'.cachedTokens in {None, s.cachedTokens} || (!step.Tick? && Actor(step) in s.threads
                && s'.cachedTokens == Carried(s.threads[Actor(step)])))
            && forall t :: t in s'.threads ==>
                 || (t in s.threads && s'.threads[t] == s.threads[t])
                 || Carried(s'.threads[t]) in {None, s.cachedTokens}
                 || (t in s.threads && Carried(s'.threads[t]) == Carried(s.threads[t]))
                 || (step.Exchange? && step.result.Some? && Carried(s'.threads[t]) == step.result)
  {
  }

  lemma ExchangedStep(s: State, steps: seq<Step>, n: nat)
    requires n < |steps| && Enabled(s, steps[n]) && HoldsExchanged(s, steps, n)
    ensures HoldsExchanged(Apply(s, steps[n]), steps, n + 1)
  {
    TokensArePassedOn(s, steps[n]);
    forall token | WasExchanged(steps, n, token) ensures WasExchanged(steps, n + 1, token) {
      var i, t :| 0 <= i < n && steps[i] == Exchange(t, Some(token));
    }
    if steps[n].Exchange? && steps[n].result.Some? {
      assert steps[n] == Exchange(steps[n].t, Some(steps[n].result.value));
      assert WasExchanged(steps, n + 1, steps[n].result.value);
    }
    hide WasExchanged, Apply, Enabled, Carried;
  }

  /** Whatever is cached, and whatever is returned from the cache, came out of an
      exchange. */
  lemma {:induction false} CachedWasExchanged(states: seq<State>, steps: seq<Step>, n: nat)
    requires IsBehavior(states, steps) && n < |states|
    ensures HoldsExchanged(states[n], steps, n)
  {
    if n > 0 {
      CachedWasExchanged(states, steps, n - 1);
      assert Enabled(states[n - 1], steps[n - 1]) && states[n - 1 + 1] == Apply(states[n - 1], steps[n - 1]);
      hide Apply, Enabled, HoldsExchanged;
      ExchangedStep(states[n - 1], steps, n - 1);
    }
  }

  /** A caller that reads a token before it expires returns that very token, without
      waiting. */
  lemma LiveTokenIsReturned(states: seq<State>, steps: seq<Step>, i: nat, t: nat, token: Token)
    requires IsBehavior(states, steps) && i < |steps| && steps[i] == Check(t)
    requires t in states[i].threads && states[i].threads[t] == Checking(Some(token))
    requires token.expiresIn <= 0 || states[i].now <= token.obtainedAt + token.expiresIn
    ensures states[i + 1].threads[t] == Returned(Cached(Some(token), states[i].now))
  {
    assert states[i + 1] == Apply(states[i], steps[i]);
  }

  /** So does one that finds a live token after getting the lock: nobody starts an
      exchange then. */
  lemma LiveTokenIsReused(states: seq<State>, steps: seq<Step>, i: nat, t: nat, token: Token)
    requires IsBehavior(states, steps) && i < |steps| && steps[i] == Recheck(t)
    requires states[i].cachedTokens == Some(token)
    requires token.expiresIn <= 0 || states[i].now <= token.obtainedAt + token.expiresIn
    ensures states[i + 1].threads[t] == Reusing(token, states[i].now)
  {
    assert Enabled(states[i], steps[i]) && states[i + 1] == Apply(states[i], steps[i]);
  }

  /** A caller that reuses a token returns the token it checked. */
  lemma ReusedIsReturned(states: seq<State>, steps: seq<Step>, i: nat, t: nat)
    requires IsBehavior(states, steps) && i < |steps| && steps[i] == Reuse(t)
    ensures t in states[i].threads && states[i].threads[t].Reusing?
    ensures var token, at := states[i].threads[t].checked, states[i].threads[t].checkedAt;
            states[i + 1].threads[t] == Releasing(Cached(Some(token), at))
  {
    assert Enabled(states[i], steps[i]) && states[i + 1] == Apply(states[i], steps[i]);
    ReachableInvariant(states, steps, i);
    assert PcInvariant(states[i], states[i].threads[t]);
  }

  /** After an invalidation nothing is cached until the next store. */
  lemma {:induction false} NothingCachedUntilStored(states: seq<State>, steps: seq<Step>, i: nat, n: nat)
    requires IsBehavior(states, steps) && i < n < |states| && steps[i].Invalidate?
    requires forall k :: i < k < n ==> !steps[k].Store?
    ensures states[n].cachedTokens == None
    decreases n
  {
    assert Enabled(states[n - 1], steps[n - 1]) && states[n - 1 + 1] == Apply(states[n - 1], steps[n - 1]);
    if i < n - 1 {
      NothingCachedUntilStored(states, steps, i, n - 1);
    }
  }

  /** After a store the token exchanged is cached until it is invalidated or the
      next store. */
  lemma {:induction false} StoredStaysCached(states: seq<State>, steps: seq<Step>, i: nat, n: nat, token: Token)
    requires IsBehavior(states, steps) && i < n < |states| && steps[i].Store?
    requires steps[i].t in states[i].threads && states[i].threads[steps[i].t] == Storing(token)
    requires forall k :: i < k < n ==> !steps[k].Store? && !steps[k].Invalidate?
    ensures states[n].cachedTokens == Some(token)
    decreases n
  {
    assert Enabled(states[n - 1], steps[n - 1]) && states[n - 1 + 1] == Apply(states[n - 1], steps[n - 1]);
    if i < n - 1 {
      StoredStaysCached(states, steps, i, n - 1, token);
    }
  }

  lemma EndpointStep(s: State, step: Step)
    requires Enabled(s, step)
    ensures var endpoint := Apply(s, step).resolvedEndpoint;
            endpoint in {s.resolvedEndpoint, s.configuredEndpoint}
            || (step.Resolve? && step == Resolve(step.t, Some(endpoint)))
  {
  }

  /** The endpoint in use is the configured one, or was discovered. */
  lemma {:induction false} EndpointHasOrigin(states: seq<State>, steps: seq<Step>, n: nat)
    requires IsBehavior(states, steps) && n < |states|
    ensures states[n].resolvedEndpoint in {"", states[0].configuredEndpoint}
            || exists i, t :: 0 <= i < n && steps[i] == Resolve(t, Some(states[n].resolvedEndpoint))
  {
    if n > 0 {
      var s, step := states[n - 1], steps[n - 1];
      assert Enabled(s, step) && states[n - 1 + 1] == Apply(s, step);
      EndpointIsWrittenOnce(states, steps, 0, n - 1);
      EndpointHasOrigin(states, steps, n - 1);
      hide Apply, Enabled, IsBehavior;
      EndpointStep(s, step);
    }
  }
}
