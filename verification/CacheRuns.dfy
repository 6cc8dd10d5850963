/** Runs of the result cache: edits, cachings, lookups, invalidations and restarts in
    any order, with any failures. */
module CacheRuns {
  import opened SemanticCache
  import opened Wrappers

  /** One thing that can happen. `CacheOp` stores the result computed from the
      file's current content. */
  datatype Op<C> =
    | EditOp(path: string, content: Option<C>)
    | CacheOp(path: string, cancelled: bool, writeOk: bool, saveOk: bool)
    | GetOp(path: string, hashOk: bool, readOk: bool, cancelled: bool, removeOk: bool, saveOk: bool)
    | InvalidateOp(path: string, removeOk: bool, saveOk: bool)
    | ReloadOp(load: Load)

  function Perform<C, D>(cacheDir: string, hash: C -> string, f: C -> D, s: Store<C, D>, op: Op<C>): Store<C, D> {
    match op
    case EditOp(path, None) => s.(sources := s.sources - {path})
    case EditOp(path, Some(content)) => s.(sources := s.sources[path := content])
    case CacheOp(path, cancelled, writeOk, saveOk) =>
      if path in s.sources
      then CacheSpec(cacheDir, hash, s, path, f(s.sources[path]), cancelled, writeOk, saveOk).0
      else s
    case GetOp(path, hashOk, readOk, cancelled, removeOk, saveOk) =>
      GetSpec(hash, s, path, hashOk, readOk, cancelled, removeOk, saveOk).0
    case InvalidateOp(path, removeOk, saveOk) => InvalidateSpec(s, path, removeOk, saveOk)
    case ReloadOp(load) => ReloadSpec(s, load)
  }

  function Run<C, D>(cacheDir: string, hash: C -> string, f: C -> D, sources: map<string, C>,
                     ops: seq<Op<C>>): Store<C, D> {
    if ops == [] then Store(sources, map[], None, map[])
    else Perform(cacheDir, hash, f, Run(cacheDir, hash, f, sources, ops[..|ops| - 1]), ops[|ops| - 1])
  }

  /** Contents that hash alike have equal results. Holds for a collision-free
      hash. */
  ghost predicate IsConsistent<C(!new), D>(hash: C -> string, f: C -> D) {
    forall c, d :: hash(c) == hash(d) ==> f(c) == f(d)
  }

  ghost predicate PointsByHash(cacheDir: string, index: Index) {
    forall p :: p in index ==> index[p].resultFilePath == ResultFile(cacheDir, index[p].contentHash)
  }

  /** Every result file holds the result of any content with its hash. */
  ghost predicate IsSound<C(!new), D>(cacheDir: string, hash: C -> string, f: C -> D, s: Store<C, D>) {
    && PointsByHash(cacheDir, s.index)
    && (s.saved.Some? ==> PointsByHash(cacheDir, s.saved.value))
    && forall c :: ResultFile(cacheDir, hash(c)) in s.results ==> s.results[ResultFile(cacheDir, hash(c))] == f(c)
  }

  lemma PerformKeepsSound<C(!new), D>(cacheDir: string, hash: C -> string, f: C -> D, s: Store<C, D>, op: Op<C>)
    requires IsConsistent(hash, f) && IsSound(cacheDir, hash, f, s)
    ensures IsSound(cacheDir, hash, f, Perform(cacheDir, hash, f, s, op))
  {
    var s' := Perform(cacheDir, hash, f, s, op);
    hide ResultFile;
    forall c | ResultFile(cacheDir, hash(c)) in s'.results ensures s'.results[ResultFile(cacheDir, hash(c))] == f(c) {
      if op.CacheOp? && op.path in s.sources {
        var d := s.sources[op.path];
        if ResultFile(cacheDir, hash(c)) == ResultFile(cacheDir, hash(d)) {
          ResultFilesDistinct(cacheDir, hash(c), hash(d));
        }
      }
    }
  }

  lemma {:induction false} RunIsSound<C(!new), D>(cacheDir: string, hash: C -> string, f: C -> D,
                                                  sources: map<string, C>, ops: seq<Op<C>>)
    requires IsConsistent(hash, f)
    ensures IsSound(cacheDir, hash, f, Run(cacheDir, hash, f, sources, ops))
    decreases |ops|
  {
    if ops != [] {
      var n := |ops| - 1;
      RunIsSound(cacheDir, hash, f, sources, ops[..n]);
      PerformKeepsSound(cacheDir, hash, f, Run(cacheDir, hash, f, sources, ops[..n]), ops[n]);
    }
  }

  /** A lookup after this run misses, fails, or gives the result of the file's
      current content. */
  ghost predicate AnswersAreCurrent<C, D>(cacheDir: string, hash: C -> string, f: C -> D, s: Store<C, D>,
                                          path: string) {
    forall hashOk, readOk, cancelled, removeOk, saveOk ::
      var answer := GetSpec(hash, s, path, hashOk, readOk, cancelled, removeOk, saveOk).1;
      answer.Hit? ==> path in s.sources && answer.data == f(s.sources[path])
  }

  lemma SoundAnswers<C(!new), D>(cacheDir: string, hash: C -> string, f: C -> D, s: Store<C, D>, path: string)
    requires IsSound(cacheDir, hash, f, s)
    ensures AnswersAreCurrent(cacheDir, hash, f, s, path)
  {
  }

  /** A file edited from one colliding content to the other still looks
      unchanged, and the old result is served. */
  lemma CollisionIsServed<C(!new), D>(cacheDir: string, hash: C -> string, f: C -> D, c: C, d: C)
    requires hash(c) == hash(d) && f(c) != f(d)
    ensures exists sources, ops, path ::
              !AnswersAreCurrent(cacheDir, hash, f, Run(cacheDir, hash, f, sources, ops), path)
  {
    var sources: map<string, C> := map["a" := c];
    var caching, edit: Op<C> := CacheOp("a", false, true, true), EditOp("a", Some(d));
    var s0: Store<C, D> := Store(sources, map[], None, map[]);
    var s1 := Perform(cacheDir, hash, f, s0, caching);
    var s2 := Perform(cacheDir, hash, f, s1, edit);
    assert [caching][..0] == [] && [caching, edit][..1] == [caching];
    assert Run(cacheDir, hash, f, sources, [caching]) == s1;
    assert Run(cacheDir, hash, f, sources, [caching, edit]) == s2;
    var answer := GetSpec(hash, s2, "a", true, true, false, true, true).1;
    assert answer == Hit(f(c)) && s2.sources["a"] == d;
    assert !AnswersAreCurrent(cacheDir, hash, f, s2, "a");
    var ops := [caching, edit];
    assert !AnswersAreCurrent(cacheDir, hash, f, Run(cacheDir, hash, f, sources, ops), "a");
  }

  /** Over every run of edits, cachings, lookups, invalidations and restarts, with
      any I/O failures, even when paths share a result file, lookups are current
      if and only if contents that hash alike have equal results. */
  lemma LookupsAreCurrentIff<C(!new), D>(cacheDir: string, hash: C -> string, f: C -> D)
    ensures IsConsistent(hash, f) <==>
              forall sources, ops, path ::
                AnswersAreCurrent(cacheDir, hash, f, Run(cacheDir, hash, f, sources, ops), path)
  {
    if IsConsistent(hash, f) {
      forall sources, ops, path
        ensures AnswersAreCurrent(cacheDir, hash, f, Run(cacheDir, hash, f, sources, ops), path)
      {
        RunIsSound(cacheDir, hash, f, sources, ops);
        SoundAnswers(cacheDir, hash, f, Run(cacheDir, hash, f, sources, ops), path);
      }
    } else {
      var c, d :| hash(c) == hash(d) && f(c) != f(d);
      CollisionIsServed(cacheDir, hash, f, c, d);
    }
  }

  /** After a successful update the saved index is the one in memory, so a
      restart that can load it finds the same entries. */
  lemma SuccessfulUpdateIsSaved<C, D>(cacheDir: string, hash: C -> string, s: Store<C, D>, path: string, data: D,
                                      cancelled: bool, writeOk: bool, saveOk: bool, removeOk: bool)
    ensures var (s', ok) := CacheSpec(cacheDir, hash, s, path, data, cancelled, writeOk, saveOk);
            ok ==> s'.saved == Some(s'.index) && ReloadSpec(s', Loaded) == s'
    ensures var s' := InvalidateSpec(s, path, removeOk, true);
            s'.saved == Some(s'.index) && ReloadSpec(s', Loaded) == s'
  {
  }

  /** What was just cached is found, also after a restart. */
  lemma CachedIsFound<C, D>(cacheDir: string, hash: C -> string, f: C -> D, s: Store<C, D>, path: string)
    requires path in s.sources
    ensures var s' := CacheSpec(cacheDir, hash, s, path, f(s.sources[path]), false, true, true).0;
            GetSpec(hash, ReloadSpec(s', Loaded), path, true, true, false, true, true).1 == Hit(f(s.sources[path]))
  {
  }

  /** The saved index is the one in memory; before anything is saved, both are
      empty. */
  predicate IsPersisted<C, D>(s: Store<C, D>) {
    s.index == if s.saved.Some? then s.saved.value else map[]
  }

  /** Whatever the operation saves or loads, it does so successfully. */
  predicate Persists<C>(op: Op<C>) {
    match op
    case EditOp(_, _) => true
    case CacheOp(_, cancelled, writeOk, saveOk) => saveOk || cancelled || !writeOk
    case GetOp(_, _, _, _, _, saveOk) => saveOk
    case InvalidateOp(_, _, saveOk) => saveOk
    case ReloadOp(load) => load.Loaded?
  }

  /** After every run whose saves succeeded, the saved index equals the one in
      memory. */
  lemma {:induction false} RunIsPersisted<C, D>(cacheDir: string, hash: C -> string, f: C -> D, sources: map<string, C>,
                                                ops: seq<Op<C>>)
    requires forall op :: op in ops ==> Persists(op)
    ensures IsPersisted(Run(cacheDir, hash, f, sources, ops))
    decreases |ops|
  {
    if ops != [] {
      var n := |ops| - 1;
      RunIsPersisted(cacheDir, hash, f, sources, ops[..n]);
      assert ops[n] in ops;
    }
  }

  function RunFrom<C, D>(cacheDir: string, hash: C -> string, f: C -> D, s: Store<C, D>, ops: seq<Op<C>>): Store<C, D> {
    if ops == [] then s
    else Perform(cacheDir, hash, f, RunFrom(cacheDir, hash, f, s, ops[..|ops| - 1]), ops[|ops| - 1])
  }

  lemma {:induction false} RunContinues<C, D>(cacheDir: string, hash: C -> string, f: C -> D, sources: map<string, C>,
                                              before: seq<Op<C>>, after: seq<Op<C>>)
    ensures Run(cacheDir, hash, f, sources, before + after)
         == RunFrom(cacheDir, hash, f, Run(cacheDir, hash, f, sources, before), after)
    decreases |after|
  {
    if after == [] {
      assert before + after == before;
    } else {
      var n := |after| - 1;
      assert (before + after)[..|before| + n] == before + after[..n];
      RunContinues(cacheDir, hash, f, sources, before, after[..n]);
    }
  }

  /** A restart goes unnoticed: putting one anywhere into a run whose saves so far
      succeeded changes nothing that follows. */
  lemma RestartIsInvisible<C, D>(cacheDir: string, hash: C -> string, f: C -> D, sources: map<string, C>,
                                 before: seq<Op<C>>, after: seq<Op<C>>)
    requires forall op :: op in before ==> Persists(op)
    ensures Run(cacheDir, hash, f, sources, before + [ReloadOp(Loaded)] + after)
         == Run(cacheDir, hash, f, sources, before + after)
  {
    var restart: seq<Op<C>> := [ReloadOp(Loaded)];
    RunIsPersisted(cacheDir, hash, f, sources, before);
    assert (before + restart)[..|before|] == before;
    RunContinues(cacheDir, hash, f, sources, before + restart, after);
    RunContinues(cacheDir, hash, f, sources, before, after);
  }

  /** The file has its content, and its entry points to the result for it. */
  predicate IsRemembered<C, D(==)>(cacheDir: string, hash: C -> string, f: C -> D, s: Store<C, D>, path: string) {
    && path in s.sources && path in s.index && IsPersisted(s)
    && var h := hash(s.sources[path]);
       && s.index[path].contentHash == h && s.index[path].resultFilePath == ResultFile(cacheDir, h)
       && ResultFile(cacheDir, h) in s.results && s.results[ResultFile(cacheDir, h)] == f(s.sources[path])
  }

  /** Not an edit of the file, not an invalidation, and no failing read or save. */
  predicate IsHarmless<C>(op: Op<C>, path: string) {
    && Persists(op) && !op.InvalidateOp?
    && (op.EditOp? ==> op.path != path)
    && (op.GetOp? ==> op.readOk)
  }

  lemma HarmlessKeepsRemembered<C(!new), D>(cacheDir: string, hash: C -> string, f: C -> D, s: Store<C, D>, op: Op<C>,
                                            path: string)
    requires IsConsistent(hash, f) && IsRemembered(cacheDir, hash, f, s, path) && IsHarmless(op, path)
    ensures var s' := Perform(cacheDir, hash, f, s, op);
            IsRemembered(cacheDir, hash, f, s', path) && s'.sources[path] == s.sources[path]
  {
    hide ResultFile;
    if op.CacheOp? && op.path in s.sources {
      var h, k := hash(s.sources[op.path]), hash(s.sources[path]);
      if ResultFile(cacheDir, h) == ResultFile(cacheDir, k) {
        ResultFilesDistinct(cacheDir, h, k);
      }
    }
  }

  /** What was cached stays found, through restarts, other files' edits and any
      caching, until its file is edited or something is invalidated. */
  lemma {:induction false} CachedStaysFound<C(!new), D>(cacheDir: string, hash: C -> string, f: C -> D,
                                                        sources: map<string, C>, before: seq<Op<C>>, path: string,
                                                        after: seq<Op<C>>)
    requires IsConsistent(hash, f) && path in Run(cacheDir, hash, f, sources, before).sources
    requires forall op :: op in after ==> IsHarmless(op, path)
    ensures var cached := before + [CacheOp(path, false, true, true)];
            var s := Run(cacheDir, hash, f, sources, cached + after);
            && IsRemembered(cacheDir, hash, f, s, path)
            && s.sources[path] == Run(cacheDir, hash, f, sources, before).sources[path]
            && GetSpec(hash, s, path, true, true, false, true, true).1 == Hit(f(s.sources[path]))
    decreases |after|
  {
    var cached := before + [CacheOp(path, false, true, true)];
    if after == [] {
      assert cached[..|before|] == before;
      assert cached + after == cached;
    } else {
      var n := |after| - 1;
      CachedStaysFound(cacheDir, hash, f, sources, before, path, after[..n]);
      assert (cached + after)[..|cached| + n] == cached + after[..n];
      assert after[n] in after;
      HarmlessKeepsRemembered(cacheDir, hash, f, Run(cacheDir, hash, f, sources, cached + after[..n]), after[n], path);
    }
  }

  /** The operation saves the index, given what it finds. */
  predicate Saves<C, D>(hash: C -> string, s: Store<C, D>, op: Op<C>) {
    match op
    case EditOp(_, _) => false
    case CacheOp(path, cancelled, writeOk, saveOk) => path in s.sources && !cancelled && writeOk && saveOk
    case GetOp(path, hashOk, readOk, _, _, saveOk) =>
      && path in s.index && path in s.sources && hashOk && hash(s.sources[path]) == s.index[path].contentHash
      && (s.index[path].resultFilePath !in s.results || !readOk) && saveOk
    case InvalidateOp(_, _, saveOk) => saveOk
    case ReloadOp(_) => false
  }

  /** One of the first `k` operations after `before` saves the index. */
  ghost predicate SavedSince<C, D>(cacheDir: string, hash: C -> string, f: C -> D, sources: map<string, C>,
                                   before: seq<Op<C>>, after: seq<Op<C>>, k: nat)
    requires k <= |after|
  {
    exists j :: 0 <= j < k && Saves(hash, Run(cacheDir, hash, f, sources, before + after[..j]), after[j])
  }

  /** The path is not in the index; nor in the saved one, if that was written
      `since`. */
  predicate IsForgotten<C, D>(s: Store<C, D>, path: string, since: bool) {
    && path !in s.index
    && (since ==> s.saved.Some? && path !in s.saved.value)
  }

  lemma ForgottenStep<C, D>(cacheDir: string, hash: C -> string, f: C -> D, s: Store<C, D>, op: Op<C>, path: string,
                            since: bool)
    requires IsForgotten(s, path, since) || (op.InvalidateOp? && op.path == path && !since)
    requires !(op.CacheOp? && op.path == path) && (op.ReloadOp? && op.load.Loaded? ==> since)
    ensures IsForgotten(Perform(cacheDir, hash, f, s, op), path, since || Saves(hash, s, op))
  {
  }

  lemma SavedNext<C, D>(cacheDir: string, hash: C -> string, f: C -> D, sources: map<string, C>,
                        before: seq<Op<C>>, after: seq<Op<C>>, k: nat)
    requires k < |after|
    ensures SavedSince(cacheDir, hash, f, sources, before, after, k + 1)
       <==> SavedSince(cacheDir, hash, f, sources, before, after, k)
            || Saves(hash, Run(cacheDir, hash, f, sources, before + after[..k]), after[k])
  {
    hide Saves, Run;
  }

  lemma RunNext<C, D>(cacheDir: string, hash: C -> string, f: C -> D, sources: map<string, C>,
                      before: seq<Op<C>>, after: seq<Op<C>>, k: nat)
    requires k < |after|
    ensures Run(cacheDir, hash, f, sources, before + after[..k + 1])
         == Perform(cacheDir, hash, f, Run(cacheDir, hash, f, sources, before + after[..k]), after[k])
  {
    hide Perform;
    var ops := before + after[..k + 1];
    assert ops[..|ops| - 1] == before + after[..k];
  }

  lemma {:induction false} ForgottenAfter<C, D>(cacheDir: string, hash: C -> string, f: C -> D, sources: map<string, C>,
                                                before: seq<Op<C>>, path: string, after: seq<Op<C>>, k: nat)
    requires 0 < k <= |after| && after[0].InvalidateOp? && after[0].path == path
    requires forall i :: 0 <= i < |after| ==> !(after[i].CacheOp? && after[i].path == path)
    requires forall i :: 0 <= i < |after| && after[i].ReloadOp? && after[i].load.Loaded? ==>
               SavedSince(cacheDir, hash, f, sources, before, after, i)
    ensures IsForgotten(Run(cacheDir, hash, f, sources, before + after[..k]), path,
                        SavedSince(cacheDir, hash, f, sources, before, after, k))
  {
    assert !SavedSince(cacheDir, hash, f, sources, before, after, 0);
    hide Run, Perform, IsForgotten, Saves, SavedSince;
    if k > 1 {
      ForgottenAfter(cacheDir, hash, f, sources, before, path, after, k - 1);
    }
    SavedNext(cacheDir, hash, f, sources, before, after, k - 1);
    RunNext(cacheDir, hash, f, sources, before, after, k - 1);
    ForgottenStep(cacheDir, hash, f, Run(cacheDir, hash, f, sources, before + after[..k - 1]), after[k - 1], path,
                  SavedSince(cacheDir, hash, f, sources, before, after, k - 1));
  }

  /** An invalidated path is missed as long as it is not cached again and every
      later load reads an index saved since. */
  lemma InvalidatedIsMissed<C, D>(cacheDir: string, hash: C -> string, f: C -> D, sources: map<string, C>,
                                  before: seq<Op<C>>, path: string, after: seq<Op<C>>)
    requires after != [] && after[0].InvalidateOp? && after[0].path == path
    requires forall k :: 0 <= k < |after| ==> !(after[k].CacheOp? && after[k].path == path)
    requires forall k :: 0 <= k < |after| && after[k].ReloadOp? && after[k].load.Loaded? ==>
               SavedSince(cacheDir, hash, f, sources, before, after, k)
    ensures var s := Run(cacheDir, hash, f, sources, before + after);
            && IsForgotten(s, path, SavedSince(cacheDir, hash, f, sources, before, after, |after|))
            && forall hashOk, readOk, cancelled, removeOk, saveOk ::
                 GetSpec(hash, s, path, hashOk, readOk, cancelled, removeOk, saveOk).1 == Miss
  {
    ForgottenAfter(cacheDir, hash, f, sources, before, path, after, |after|);
    assert after[..|after|] == after;
  }
}
