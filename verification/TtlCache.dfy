/** The cache behind a held async mutex that the TAPOS filler and the energy filler share
    (crates/provider/src/fillers/mod.rs): a caller that misses keeps the lock while it
    fetches, so the others wait for its answer instead of fetching too. */
module TtlCache {
  import opened Wrappers

  datatype Entry<V> = Entry(value: V, stamp: nat)

  /** `fetched_at.elapsed() < ttl`. */
  predicate Fresh<V>(cache: Option<Entry<V>>, now: int, ttl: nat)
  {
    cache.Some? && now - cache.value.stamp < ttl
  }

  // ---- The critical section ----

  /** What one caller does between taking and releasing the lock. */
  function Serve<V, E>(cache: Option<Entry<V>>, ttl: nat, checkedAt: nat, reply: Result<V, E>, repliedAt: nat)
    : (Option<Entry<V>>, Result<V, E>)
  {
    if Fresh(cache, checkedAt, ttl) then (cache, Ok(cache.value.value))
    else
      match reply
      case Ok(v) => (Some(Entry(v, repliedAt)), Ok(v))
      case Err(e) => (cache, Err(e))
  }

  /** The shared cell; clones of a filler hold the same one. */
  class Cell<V> {
    var entry: Option<Entry<V>>

    constructor ()
      ensures entry == None
    {
      entry := None;
    }

    method GetOrFetch<E>(ttl: nat, checkedAt: nat, reply: Result<V, E>, repliedAt: nat) returns (r: Result<V, E>)
      modifies this
      ensures (entry, r) == Serve(old(entry), ttl, checkedAt, reply, repliedAt)
    {
      if entry.Some? && checkedAt - entry.value.stamp < ttl {
        return Ok(entry.value.value);
      }
      if reply.Ok? {
        entry := Some(Entry(reply.value, repliedAt));
      }
      return reply;
    }
  }

  // ---- The protocol: any number of callers, clock ticks and failures, interleaved ----

  type Caller = nat

  datatype Phase<V> = Idle | Queued | Holding | Fetching(checkedAt: nat) | Got(value: V) | Failed

  /** A value handed to a caller: fetched by itself, or found in the cache. */
  datatype Use<V> = Use(caller: Caller, entry: Entry<V>, at: nat, own: bool)

  datatype State<V> = State(
    ttl: nat,
    now: nat,
    cache: Option<Entry<V>>,
    lock: Option<Caller>,
    phases: map<Caller, Phase<V>>,
    fetches: seq<Entry<V>>,
    uses: seq<Use<V>>)
  {
    function PhaseOf(c: Caller): Phase<V> { if c in phases then phases[c] else Idle }

    function Put(c: Caller, p: Phase<V>): State<V> { this.(phases := phases[c := p]) }
  }

  datatype Step<V> =
    | Tick(elapsed: nat)
    | Ask(c: Caller)
    | Acquire(c: Caller)
    | Check(c: Caller)
    | Reply(c: Caller, answer: Option<V>)
    | Abandon(c: Caller)

  function Init<V>(ttl: nat): State<V> { State(ttl, 0, None, None, map[], [], []) }

  predicate Enabled<V>(s: State<V>, step: Step<V>)
  {
    match step
    case Tick(_) => true
    case Ask(c) => s.PhaseOf(c).Idle? || s.PhaseOf(c).Got? || s.PhaseOf(c).Failed?
    case Acquire(c) => s.PhaseOf(c).Queued? && s.lock.None?
    case Check(c) => s.PhaseOf(c).Holding?
    case Reply(c, _) => s.PhaseOf(c).Fetching?
    case Abandon(c) => s.PhaseOf(c).Queued? || s.PhaseOf(c).Holding? || s.PhaseOf(c).Fetching?
  }

  /** One atomic step; a step that is not enabled changes nothing. Dropping a request that
      holds the lock releases it. */
  function Apply<V>(s: State<V>, step: Step<V>): State<V>
  {
    if !Enabled(s, step) then s
    else
      match step
      case Tick(d) => s.(now := s.now + d)
      case Ask(c) => s.Put(c, Queued)
      case Acquire(c) => s.Put(c, Holding).(lock := Some(c))
      case Check(c) =>
        if Fresh(s.cache, s.now, s.ttl) then
          var e := s.cache.value;
          s.Put(c, Got(e.value)).(lock := None, uses := s.uses + [Use(c, e, s.now, false)])
        else s.Put(c, Fetching(s.now))
      case Reply(c, answer) =>
        (match answer
         case None => s.Put(c, Failed).(lock := None)
         case Some(v) =>
           var e := Entry(v, s.now);
           s.Put(c, Got(v)).(lock := None, cache := Some(e), fetches := s.fetches + [e],
                             uses := s.uses + [Use(c, e, s.now, true)]))
      case Abandon(c) =>
        s.Put(c, Idle).(lock := if s.lock == Some(c) then None else s.lock)
  }

  function Exec<V>(s: State<V>, steps: seq<Step<V>>): State<V>
  {
    if steps == [] then s else Apply(Exec(s, steps[..|steps| - 1]), steps[|steps| - 1])
  }

  // ---- What every run keeps ----

  ghost predicate LockMatchesPhases<V>(s: State<V>)
  {
    forall c: Caller :: (s.PhaseOf(c).Holding? || s.PhaseOf(c).Fetching?) <==> s.lock == Some(c)
  }

  /** The cache is the last successful fetch, and a fetch under way started from a stale one. */
  ghost predicate CacheIsLastFetch<V>(s: State<V>)
  {
    && s.cache == (if s.fetches == [] then None else Some(s.fetches[|s.fetches| - 1]))
    && (s.cache.Some? ==> s.cache.value.stamp <= s.now)
    && (forall c: Caller :: s.PhaseOf(c).Fetching? && s.cache.Some? ==>
          s.cache.value.stamp + s.ttl <= s.PhaseOf(c).checkedAt <= s.now)
  }

  ghost predicate Spaced<V>(fetches: seq<Entry<V>>, ttl: nat)
  {
    forall i :: 0 < i < |fetches| ==> fetches[i - 1].stamp + ttl <= fetches[i].stamp
  }

  /** The caller fetched the value itself, just now, or it is younger than the TTL. */
  ghost predicate Justified<V>(u: Use<V>, fetches: seq<Entry<V>>, ttl: nat)
  {
    u.entry in fetches && if u.own then u.at == u.entry.stamp else u.at - u.entry.stamp < ttl
  }

  ghost predicate Inv<V>(s: State<V>)
  {
    && LockMatchesPhases(s)
    && CacheIsLastFetch(s)
    && Spaced(s.fetches, s.ttl)
    && forall i :: 0 <= i < |s.uses| ==> Justified(s.uses[i], s.fetches, s.ttl)
  }

  /** A step moves nobody but its caller, and the histories only grow; a caller that just got
      a value is the last entry of the use history. */
  lemma StepMoves<V>(s: State<V>, step: Step<V>)
    ensures var s' := Apply(s, step);
      && s'.ttl == s.ttl && s.now <= s'.now && s.fetches <= s'.fetches && s.uses <= s'.uses
      && (forall x: Caller :: step.Tick? || x != step.c ==> s'.PhaseOf(x) == s.PhaseOf(x))
      && (!step.Tick? && s'.PhaseOf(step.c).Got? && s'.PhaseOf(step.c) != s.PhaseOf(step.c) ==>
            |s'.uses| == |s.uses| + 1 && s'.uses[|s.uses|].caller == step.c
            && s'.uses[|s.uses|].entry.value == s'.PhaseOf(step.c).value && s'.uses[|s.uses|].at == s'.now)
  {
  }

  lemma LockKept<V>(s: State<V>, step: Step<V>)
    requires Inv(s)
    ensures LockMatchesPhases(Apply(s, step))
  {
    StepMoves(s, step);
  }

  lemma HistoriesKept<V>(s: State<V>, step: Step<V>)
    requires Inv(s)
    ensures var s' := Apply(s, step);
      && Spaced(s'.fetches, s'.ttl)
      && forall i :: 0 <= i < |s'.uses| ==> Justified(s'.uses[i], s'.fetches, s'.ttl)
  {
    var s' := Apply(s, step);
    assert forall e :: e in s.fetches ==> e in s'.fetches;
    if step.Reply? && Enabled(s, step) && step.answer.Some? {
      assert s'.fetches[|s.fetches|] == Entry(step.answer.value, s.now);
    }
  }

  lemma CacheKept<V>(s: State<V>, step: Step<V>)
    requires Inv(s)
    ensures CacheIsLastFetch(Apply(s, step))
  {
    StepMoves(s, step);
    assert LockMatchesPhases(s);
  }

  lemma StepKeepsInv<V>(s: State<V>, step: Step<V>)
    requires Inv(s)
    ensures Inv(Apply(s, step)) && Apply(s, step).ttl == s.ttl
  {
    LockKept(s, step);
    HistoriesKept(s, step);
    CacheKept(s, step);
    StepMoves(s, step);
  }

  /** Every reachable state: whoever asks, in whatever order, however the clock moves and
      whichever fetches fail or are dropped. */
  lemma {:induction false} EveryRun<V>(ttl: nat, steps: seq<Step<V>>)
    ensures Inv(Exec(Init<V>(ttl), steps)) && Exec(Init<V>(ttl), steps).ttl == ttl
    decreases |steps|
  {
    if steps != [] {
      EveryRun(ttl, steps[..|steps| - 1]);
      StepKeepsInv(Exec(Init<V>(ttl), steps[..|steps| - 1]), steps[|steps| - 1]);
    }
  }

  /** At most one request is outstanding. */
  lemma OneFetchAtATime<V>(ttl: nat, steps: seq<Step<V>>, a: Caller, b: Caller)
    ensures var s := Exec(Init<V>(ttl), steps); s.PhaseOf(a).Fetching? && s.PhaseOf(b).Fetching? ==> a == b
  {
    EveryRun(ttl, steps);
    var s := Exec(Init<V>(ttl), steps);
    assert LockMatchesPhases(s);
  }

  /** Successful fetches are rate limited: any `k` of them in a row span `k` TTLs, so a window
      of time holds at most one more fetch than it holds TTLs. */
  lemma {:induction false} FetchesAreRateLimited<V>(ttl: nat, steps: seq<Step<V>>, i: nat, j: nat)
    requires i <= j < |Exec(Init<V>(ttl), steps).fetches|
    ensures var fetches := Exec(Init<V>(ttl), steps).fetches;
      fetches[i].stamp + (j - i) * ttl <= fetches[j].stamp
    decreases j
  {
    EveryRun(ttl, steps);
    if i < j {
      FetchesAreRateLimited(ttl, steps, i, j - 1);
      assert (j - i) * ttl == (j - 1 - i) * ttl + ttl;
    }
  }

  /** Only a successful reply writes the cache, and then with what it brought. */
  lemma OnlySuccessfulRepliesWrite<V>(s: State<V>, step: Step<V>)
    ensures Apply(s, step).cache ==
      if step.Reply? && step.answer.Some? && s.PhaseOf(step.c).Fetching?
      then Some(Entry(step.answer.value, s.now)) else s.cache
  {
  }

  predicate Involves<V>(step: Step<V>, c: Caller) { !step.Tick? && step.c == c }

  /** While a caller holds the lock, nothing the others do reaches the cache or its phase. */
  lemma OthersCannotInterfere<V>(s: State<V>, step: Step<V>, c: Caller)
    requires Inv(s) && s.lock == Some(c) && !Involves(step, c)
    ensures var s' := Apply(s, step); s'.cache == s.cache && s'.lock == s.lock && s'.PhaseOf(c) == s.PhaseOf(c)
  {
    assert LockMatchesPhases(s);
  }

  lemma {:induction false} OthersCannotInterfereLong<V>(s: State<V>, steps: seq<Step<V>>, c: Caller)
    requires Inv(s) && s.lock == Some(c) && forall i :: 0 <= i < |steps| ==> !Involves(steps[i], c)
    ensures var s' := Exec(s, steps);
      Inv(s') && s'.cache == s.cache && s'.lock == s.lock && s'.PhaseOf(c) == s.PhaseOf(c) && s'.ttl == s.ttl
    decreases |steps|
  {
    if steps != [] {
      var init := steps[..|steps| - 1];
      OthersCannotInterfereLong(s, init, c);
      OthersCannotInterfere(Exec(s, init), steps[|steps| - 1], c);
      StepKeepsInv(Exec(s, init), steps[|steps| - 1]);
    }
  }

  /** So a caller's pass through the lock is `Serve`, whatever the others do meanwhile. */
  lemma PassThroughTheLockIsServe<V, E>(s: State<V>, c: Caller, meanwhile: seq<Step<V>>, reply: Result<V, E>)
    requires Inv(s) && s.PhaseOf(c).Holding?
    requires forall i :: 0 <= i < |meanwhile| ==> !Involves(meanwhile[i], c)
    ensures var checked := Apply(s, Check(c));
      var answered := Exec(checked, meanwhile);
      var end := if Fresh(s.cache, s.now, s.ttl) then checked
                 else Apply(answered, Reply(c, if reply.Ok? then Some(reply.value) else None));
      var (cache, r) := Serve(s.cache, s.ttl, s.now, reply, answered.now);
      end.cache == cache && end.PhaseOf(c) == (if r.Ok? then Got(r.value) else Failed) && end.lock == None
  {
    assert LockMatchesPhases(s);
    if !Fresh(s.cache, s.now, s.ttl) {
      StepKeepsInv(s, Check(c));
      OthersCannotInterfereLong(Apply(s, Check(c)), meanwhile, c);
    }
  }

  /** Nobody waits for ever on a free lock: while someone is queued, a caller can move. */
  lemma NoDeadlock<V>(s: State<V>, c: Caller) returns (step: Step<V>)
    requires Inv(s) && s.PhaseOf(c).Queued?
    ensures Enabled(s, step) && (step.Acquire? || step.Check? || step.Reply?)
  {
    if s.lock.None? {
      step := Acquire(c);
    } else {
      assert LockMatchesPhases(s);
      var holder := s.lock.value;
      step := if s.PhaseOf(holder).Holding? then Check(holder) else Reply(holder, None);
    }
  }
}
