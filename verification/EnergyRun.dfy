/** Any number of energy fills at once (`EnergyFiller`, crates/provider/src/fillers/mod.rs):
    the clones share the refusal latch and the price cache, and their requests interleave
    with each other, with the clock, with failures and with fills that are dropped. */
module EnergyRun {
  import opened Wrappers
  import opened Integers
  import opened ProviderTypes
  import opened Energy
  import C = TtlCache

  type Caller = C.Caller

  /** Where one fill of a contract call stands. */
  datatype Fill = Out | Begun | Estimating | Calling | Pricing(energy: I64)

  /** What happened, in order. `use` points into the price cache's own history of values handed
      out, `mark` is the length of that history at the event, and `at` the time of the event. */
  datatype Event =
    | Began(c: Caller)
    | ReadLatch(c: Caller, refused: bool)
    | Estimated(c: Caller, energy: I64, mark: nat)
    | Refused(c: Caller)
    | Missed(c: Caller)
    | Simulated(c: Caller, energy: I64, mark: nat)
    | Finished(c: Caller, price: I64, limit: I64, use: nat, at: nat)
    | Fallback(c: Caller)
    | Failed(c: Caller)
    | Dropped(c: Caller)

  datatype EstimateReply = Amount(energy: I64) | NotOffered | Unreachable

  datatype Step =
    | Tick(elapsed: nat)
    | Begin(c: Caller)
    | LoadLatch(c: Caller)
    | OnEstimate(c: Caller, reply: EstimateReply)
    | OnCall(c: Caller, call: Result<CallResult, ProviderError>)
    | LockPrice(c: Caller)
    | CheckPrice(c: Caller)
    | OnPrice(c: Caller, price: Option<I64>)
    | Drop(c: Caller)

  /** What the run needs of a filler's settings; the arithmetic stays behind `limitOf`. */
  datatype Rules = Rules(
    onFailure: OnEstimateFailure,
    priceTtl: nat,
    limitOf: (I64, I64) -> Result<I64, ProviderError>)

  function RulesOf(s: Settings): Rules
  {
    Rules(s.onFailure, s.priceTtl, (energy, price) => Limit(s, energy, price))
  }

  datatype State = State(
    latch: bool,
    prices: C.State<I64>,
    fills: map<Caller, Fill>,
    log: seq<Event>)
  {
    function FillOf(c: Caller): Fill { if c in fills then fills[c] else Out }

    function Put(f: Fill, e: Event): State { this.(fills := fills[e.c := f], log := log + [e]) }

    function Mark(): nat { |prices.uses| }
  }

  function Init(rules: Rules): State { State(false, C.Init(rules.priceTtl), map[], []) }

  /** A failed estimate fails the send or falls back to the flat limit. */
  function WithoutEstimate(rules: Rules, c: Caller): Event
  {
    if rules.onFailure.Fail? then Failed(c) else Fallback(c)
  }

  function StartFill(s: State, c: Caller): State
  {
    if s.FillOf(c).Out? then s.Put(Begun, Began(c)) else s
  }

  function ReadFlag(s: State, c: Caller): State
  {
    if !s.FillOf(c).Begun? then s
    else s.Put(if s.latch then Calling else Estimating, ReadLatch(c, s.latch))
  }

  /** The energy is known: queue for the price. */
  function ToPricing(s: State, energy: I64, e: Event): State
  {
    s.Put(Pricing(energy), e).(prices := C.Apply(s.prices, C.Ask(e.c)))
  }

  function AnswerEstimate(s: State, c: Caller, reply: EstimateReply): State
  {
    if !s.FillOf(c).Estimating? then s
    else
      match reply
      case Amount(energy) => ToPricing(s, energy, Estimated(c, energy, s.Mark()))
      case NotOffered => s.Put(Calling, Refused(c)).(latch := true)
      case Unreachable => s.Put(Calling, Missed(c))
  }

  function AnswerCall(rules: Rules, s: State, c: Caller, call: Result<CallResult, ProviderError>): State
  {
    if !s.FillOf(c).Calling? then s
    else
      match EnergyFromCall(call)
      case Ok(energy) => ToPricing(s, energy, Simulated(c, energy, s.Mark()))
      case Err(_) => s.Put(Out, WithoutEstimate(rules, c))
  }

  /** The fill of `c` after the price cache has moved to `prices`: settled if the price is. */
  function Settle(rules: Rules, s: State, prices: C.State<I64>, c: Caller): State
    requires s.FillOf(c).Pricing?
  {
    var s' := s.(prices := prices);
    match prices.PhaseOf(c)
    case Got(price) =>
      var limit := rules.limitOf(s.FillOf(c).energy, price);
      if limit.Err? || prices.uses == [] then s'.Put(Out, WithoutEstimate(rules, c))
      else s'.Put(Out, Finished(c, price, limit.value, |prices.uses| - 1, prices.now))
    case Failed => s'.Put(Out, WithoutEstimate(rules, c))
    case _ => s'
  }

  function PriceStep(rules: Rules, s: State, step: C.Step<I64>): State
    requires !step.Tick?
  {
    if s.FillOf(step.c).Pricing? then Settle(rules, s, C.Apply(s.prices, step), step.c) else s
  }

  function Abandon(s: State, c: Caller): State
  {
    if s.FillOf(c).Out? then s
    else s.Put(Out, Dropped(c)).(prices := C.Apply(s.prices, C.Abandon(c)))
  }

  /** One atomic step; a step that is not enabled changes nothing. */
  function Apply(rules: Rules, s: State, step: Step): State
  {
    match step
    case Tick(d) => s.(prices := C.Apply(s.prices, C.Tick(d)))
    case Begin(c) => StartFill(s, c)
    case LoadLatch(c) => ReadFlag(s, c)
    case OnEstimate(c, reply) => AnswerEstimate(s, c, reply)
    case OnCall(c, call) => AnswerCall(rules, s, c, call)
    case LockPrice(c) => PriceStep(rules, s, C.Acquire(c))
    case CheckPrice(c) => PriceStep(rules, s, C.Check(c))
    case OnPrice(c, price) => PriceStep(rules, s, C.Reply(c, price))
    case Drop(c) => Abandon(s, c)
  }

  function Exec(rules: Rules, steps: seq<Step>): State
  {
    if steps == [] then Init(rules) else Apply(rules, Exec(rules, steps[..|steps| - 1]), steps[|steps| - 1])
  }

  // ---- The story each caller tells ----

  /** The latest event of a caller. */
  function Last(log: seq<Event>, c: Caller): Option<Event>
  {
    if log == [] then None
    else if log[|log| - 1].c == c then Some(log[|log| - 1])
    else Last(log[..|log| - 1], c)
  }

  function StageAfter(e: Option<Event>): Fill
  {
    match e
    case None => Out
    case Some(Began(_)) => Begun
    case Some(ReadLatch(_, refused)) => if refused then Calling else Estimating
    case Some(Estimated(_, energy, _)) => Pricing(energy)
    case Some(Refused(_)) => Calling
    case Some(Missed(_)) => Calling
    case Some(Simulated(_, energy, _)) => Pricing(energy)
    case Some(_) => Out
  }

  /** Which event of a caller may follow which. The node is asked for an estimate only by a
      fill that read the latch as unset; a limit prices the energy the node has just given
      this fill, at a price handed to this caller after that answer, at the moment the fill
      ends; and under `Fail` nothing else ever produces a limit. */
  ghost predicate Follows(s: Rules, uses: seq<C.Use<I64>>, previous: Option<Event>, e: Event)
  {
    match e
    case Began(_) => StageAfter(previous).Out?
    case ReadLatch(c, _) => previous == Some(Began(c))
    case Estimated(c, _, mark) => previous == Some(ReadLatch(c, false)) && mark <= |uses|
    case Refused(c) => previous == Some(ReadLatch(c, false))
    case Missed(c) => previous == Some(ReadLatch(c, false))
    case Simulated(c, _, mark) =>
      && (previous == Some(ReadLatch(c, true)) || previous == Some(Refused(c)) || previous == Some(Missed(c)))
      && mark <= |uses|
    case Finished(c, price, limit, use, at) =>
      && previous.Some? && (previous.value.Estimated? || previous.value.Simulated?)
      && s.limitOf(previous.value.energy, price) == Ok(limit)
      && previous.value.mark <= use < |uses|
      && uses[use].caller == c && uses[use].entry.value == price && uses[use].at == at
    case Fallback(_) => s.onFailure.UseFallback? && !StageAfter(previous).Out?
    case Failed(_) => s.onFailure.Fail? && !StageAfter(previous).Out?
    case Dropped(_) => !StageAfter(previous).Out?
  }

  ghost predicate Legal(s: Rules, uses: seq<C.Use<I64>>, log: seq<Event>)
  {
    forall k :: 0 <= k < |log| ==> Follows(s, uses, Last(log[..k], log[k].c), log[k])
  }

  ghost predicate HasRefusal(log: seq<Event>) { exists j :: 0 <= j < |log| && log[j].Refused? }

  /** Every reading of the latch is accurate: set exactly when a refusal is already on record. */
  ghost predicate LatchReadsAreAccurate(log: seq<Event>)
  {
    forall k :: 0 <= k < |log| && log[k].ReadLatch? ==> (log[k].refused <==> HasRefusal(log[..k]))
  }

  predicate PhaseFits(f: Fill, p: C.Phase<I64>)
  {
    f.Pricing? <==> (p.Queued? || p.Holding? || p.Fetching?)
  }

  /** The history is one the rules allow, and the latch is its summary. */
  ghost predicate HistoryInv(rules: Rules, latch: bool, uses: seq<C.Use<I64>>, log: seq<Event>)
  {
    && (latch <==> HasRefusal(log))
    && LatchReadsAreAccurate(log)
    && Legal(rules, uses, log)
  }

  /** Each caller stands where its own last event and the price cache say. */
  ghost predicate StagesInv(s: State)
  {
    && (forall c: Caller :: s.FillOf(c) == StageAfter(Last(s.log, c)))
    && (forall c: Caller :: PhaseFits(s.FillOf(c), s.prices.PhaseOf(c)))
  }

  ghost predicate Inv(rules: Rules, s: State)
  {
    && C.Inv(s.prices) && s.prices.ttl == rules.priceTtl
    && HistoryInv(rules, s.latch, s.prices.uses, s.log)
    && StagesInv(s)
  }

  lemma LegalSnoc(rules: Rules, uses: seq<C.Use<I64>>, log: seq<Event>, uses': seq<C.Use<I64>>, e: Event)
    requires Legal(rules, uses, log) && uses <= uses' && Follows(rules, uses', Last(log, e.c), e)
    ensures Legal(rules, uses', log + [e])
  {
    LegalExtends(rules, uses, uses', log);
    var log' := log + [e];
    forall k | 0 <= k < |log'|
      ensures Follows(rules, uses', Last(log'[..k], log'[k].c), log'[k])
    {
      assert log'[..k] == log[..k];
      if k < |log| {
        assert Follows(rules, uses', Last(log[..k], log[k].c), log[k]);
      } else {
        assert log[..k] == log;
      }
    }
  }

  lemma ReadsSnoc(log: seq<Event>, e: Event)
    requires LatchReadsAreAccurate(log)
    requires e.ReadLatch? ==> (e.refused <==> HasRefusal(log))
    ensures LatchReadsAreAccurate(log + [e])
    ensures HasRefusal(log + [e]) <==> HasRefusal(log) || e.Refused?
  {
    var log' := log + [e];
    assert log'[..|log|] == log && log'[|log|] == e;
    assert forall k :: 0 <= k < |log| ==> log'[..k] == log[..k] && log'[k] == log[k];
  }

  lemma LastSnoc(log: seq<Event>, e: Event)
    ensures forall c: Caller :: Last(log + [e], c) == if c == e.c then Some(e) else Last(log, c)
  {
    assert (log + [e])[..|log|] == log;
  }

  /** The price cache after a step of `c`, as far as the other callers are concerned. */
  ghost predicate MovedOnly(p: C.State<I64>, p': C.State<I64>, c: Caller)
  {
    && C.Inv(p') && p'.ttl == p.ttl && p.uses <= p'.uses
    && (forall x: Caller :: x != c ==> p'.PhaseOf(x) == p.PhaseOf(x))
  }

  /** The history grew by one entry: this price, handed to this caller at this time. */
  ghost predicate JustServed(before: seq<C.Use<I64>>, p: C.State<I64>, c: Caller)
  {
    && p.PhaseOf(c).Got?
    && |p.uses| == |before| + 1 && p.uses[|before|].caller == c
    && p.uses[|before|].entry.value == p.PhaseOf(c).value && p.uses[|before|].at == p.now
  }

  /** What a step of the price cache does to the callers and to its history. */
  lemma CacheStep(p: C.State<I64>, step: C.Step<I64>)
    requires C.Inv(p)
    ensures var p' := C.Apply(p, step);
      && (forall c: Caller :: step.Tick? || c == step.c ==> MovedOnly(p, p', c))
      && (step.Tick? ==> forall c: Caller :: p'.PhaseOf(c) == p.PhaseOf(c))
      && (!step.Tick? && p'.PhaseOf(step.c).Got? && !p.PhaseOf(step.c).Got? ==>
            JustServed(p.uses, p', step.c))
  {
    C.StepKeepsInv(p, step);
    C.StepMoves(p, step);
  }

  lemma HistorySnoc(rules: Rules, latch: bool, uses: seq<C.Use<I64>>, log: seq<Event>, uses': seq<C.Use<I64>>, e: Event)
    requires HistoryInv(rules, latch, uses, log) && uses <= uses'
    requires Follows(rules, uses', Last(log, e.c), e) && (e.ReadLatch? ==> e.refused == latch)
    ensures HistoryInv(rules, latch || e.Refused?, uses', log + [e])
  {
    LegalSnoc(rules, uses, log, uses', e);
    ReadsSnoc(log, e);
  }

  lemma StagesSnoc(s: State, s': State, f: Fill, e: Event)
    requires StagesInv(s) && s'.fills == s.fills[e.c := f] && s'.log == s.log + [e] && f == StageAfter(Some(e))
    requires forall x: Caller :: x != e.c ==> s'.prices.PhaseOf(x) == s.prices.PhaseOf(x)
    requires PhaseFits(f, s'.prices.PhaseOf(e.c))
    ensures StagesInv(s')
  {
    LastSnoc(s.log, e);
    assert forall c: Caller :: s'.FillOf(c) == if c == e.c then f else s.FillOf(c);
  }

  /** A step that records an event `e` and moves the price cache only for its caller. */
  lemma RecordKeepsInv(rules: Rules, s: State, prices: C.State<I64>, f: Fill, e: Event)
    requires Inv(rules, s) && f == StageAfter(Some(e)) && MovedOnly(s.prices, prices, e.c)
    requires Follows(rules, prices.uses, Last(s.log, e.c), e)
    requires e.ReadLatch? ==> e.refused == s.latch
    requires PhaseFits(f, prices.PhaseOf(e.c))
    ensures Inv(rules, s.Put(f, e).(prices := prices, latch := s.latch || e.Refused?))
  {
    HistorySnoc(rules, s.latch, s.prices.uses, s.log, prices.uses, e);
    StagesSnoc(s, s.Put(f, e).(prices := prices, latch := s.latch || e.Refused?), f, e);
  }

  /** A step that only moves the price cache. */
  lemma WaitingKeepsInv(rules: Rules, s: State, prices: C.State<I64>, c: Caller)
    requires Inv(rules, s) && MovedOnly(s.prices, prices, c) && PhaseFits(s.FillOf(c), prices.PhaseOf(c))
    ensures Inv(rules, s.(prices := prices))
  {
    LegalExtends(rules, s.prices.uses, prices.uses, s.log);
    assert forall x: Caller :: s.(prices := prices).FillOf(x) == s.FillOf(x);
  }

  lemma LegalExtends(rules: Rules, uses: seq<C.Use<I64>>, uses': seq<C.Use<I64>>, log: seq<Event>)
    requires Legal(rules, uses, log) && uses <= uses'
    ensures Legal(rules, uses', log)
  {
  }

  lemma {:induction false} LastIsTheCallers(log: seq<Event>, c: Caller)
    ensures Last(log, c).Some? ==> Last(log, c).value.c == c
  {
    if log != [] { LastIsTheCallers(log[..|log| - 1], c); }
  }

  /** The stage of a fill tells what it did last. */
  lemma StageFacts(rules: Rules, s: State, c: Caller)
    requires Inv(rules, s)
    ensures var last := Last(s.log, c);
      && s.FillOf(c) == StageAfter(last)
      && (s.FillOf(c).Begun? ==> last == Some(Began(c)))
      && (s.FillOf(c).Estimating? ==> last == Some(ReadLatch(c, false)))
      && (s.FillOf(c).Calling? ==>
            last == Some(ReadLatch(c, true)) || last == Some(Refused(c)) || last == Some(Missed(c)))
      && (s.FillOf(c).Pricing? ==> last.Some? && (last.value.Estimated? || last.value.Simulated?)
                                   && last.value.energy == s.FillOf(c).energy && last.value.mark <= s.Mark())
    ensures PhaseFits(s.FillOf(c), s.prices.PhaseOf(c)) && C.Inv(s.prices) && MovedOnly(s.prices, s.prices, c)
  {
    LastIsTheCallers(s.log, c);
    if s.FillOf(c).Pricing? {
      var r := LastIndex(s.log, c);
      assert Follows(rules, s.prices.uses, Last(s.log[..r], s.log[r].c), s.log[r]);
    }
  }

  /** An event that does not touch the price cache. */
  lemma NoteKeepsInv(rules: Rules, s: State, f: Fill, e: Event)
    requires Inv(rules, s) && f == StageAfter(Some(e)) && !f.Pricing? && !s.FillOf(e.c).Pricing?
    requires Follows(rules, s.prices.uses, Last(s.log, e.c), e)
    requires e.ReadLatch? ==> e.refused == s.latch
    ensures Inv(rules, s.Put(f, e).(latch := s.latch || e.Refused?))
  {
    StageFacts(rules, s, e.c);
    RecordKeepsInv(rules, s, s.prices, f, e);
  }

  lemma ToPricingKeepsInv(rules: Rules, s: State, energy: I64, e: Event)
    requires Inv(rules, s) && (e == Estimated(e.c, energy, s.Mark()) || e == Simulated(e.c, energy, s.Mark()))
    requires Follows(rules, s.prices.uses, Last(s.log, e.c), e) && !s.FillOf(e.c).Pricing?
    ensures Inv(rules, ToPricing(s, energy, e))
  {
    StageFacts(rules, s, e.c);
    CacheStep(s.prices, C.Ask(e.c));
    RecordKeepsInv(rules, s, C.Apply(s.prices, C.Ask(e.c)), Pricing(energy), e);
  }

  lemma SettleKeepsInv(rules: Rules, s: State, prices: C.State<I64>, c: Caller)
    requires Inv(rules, s) && MovedOnly(s.prices, prices, c) && s.FillOf(c).Pricing? && !prices.PhaseOf(c).Idle?
    requires prices.PhaseOf(c).Got? ==> JustServed(s.prices.uses, prices, c)
    ensures Inv(rules, Settle(rules, s, prices, c))
  {
    StageFacts(rules, s, c);
    var phase := prices.PhaseOf(c);
    if phase.Got? && rules.limitOf(s.FillOf(c).energy, phase.value).Ok? {
      var limit := rules.limitOf(s.FillOf(c).energy, phase.value).value;
      RecordKeepsInv(rules, s, prices, Out, Finished(c, phase.value, limit, |prices.uses| - 1, prices.now));
    } else if phase.Got? || phase.Failed? {
      RecordKeepsInv(rules, s, prices, Out, WithoutEstimate(rules, c));
    } else {
      WaitingKeepsInv(rules, s, prices, c);
    }
  }

  lemma PriceStepKeepsInv(rules: Rules, s: State, step: C.Step<I64>)
    requires Inv(rules, s) && (step.Acquire? || step.Check? || step.Reply?)
    ensures Inv(rules, PriceStep(rules, s, step))
  {
    if s.FillOf(step.c).Pricing? {
      StageFacts(rules, s, step.c);
      CacheStep(s.prices, step);
      SettleKeepsInv(rules, s, C.Apply(s.prices, step), step.c);
    }
  }

  lemma AbandonKeepsInv(rules: Rules, s: State, c: Caller)
    requires Inv(rules, s)
    ensures Inv(rules, Abandon(s, c))
  {
    if !s.FillOf(c).Out? {
      StageFacts(rules, s, c);
      CacheStep(s.prices, C.Abandon(c));
      RecordKeepsInv(rules, s, C.Apply(s.prices, C.Abandon(c)), Out, Dropped(c));
    }
  }

  lemma AnswerEstimateKeepsInv(rules: Rules, s: State, c: Caller, reply: EstimateReply)
    requires Inv(rules, s)
    ensures Inv(rules, AnswerEstimate(s, c, reply))
  {
    if s.FillOf(c).Estimating? {
      StageFacts(rules, s, c);
      match reply
      case Amount(energy) => ToPricingKeepsInv(rules, s, energy, Estimated(c, energy, s.Mark()));
      case NotOffered => NoteKeepsInv(rules, s, Calling, Refused(c));
      case Unreachable => NoteKeepsInv(rules, s, Calling, Missed(c));
    }
  }

  lemma AnswerCallKeepsInv(rules: Rules, s: State, c: Caller, call: Result<CallResult, ProviderError>)
    requires Inv(rules, s)
    ensures Inv(rules, AnswerCall(rules, s, c, call))
  {
    if s.FillOf(c).Calling? {
      StageFacts(rules, s, c);
      match EnergyFromCall(call)
      case Ok(energy) => ToPricingKeepsInv(rules, s, energy, Simulated(c, energy, s.Mark()));
      case Err(_) => NoteKeepsInv(rules, s, Out, WithoutEstimate(rules, c));
    }
  }

  lemma StartFillKeepsInv(rules: Rules, s: State, c: Caller)
    requires Inv(rules, s)
    ensures Inv(rules, StartFill(s, c))
  {
    if s.FillOf(c).Out? {
      StageFacts(rules, s, c);
      NoteKeepsInv(rules, s, Begun, Began(c));
    }
  }

  lemma ReadFlagKeepsInv(rules: Rules, s: State, c: Caller)
    requires Inv(rules, s)
    ensures Inv(rules, ReadFlag(s, c))
  {
    if s.FillOf(c).Begun? {
      StageFacts(rules, s, c);
      NoteKeepsInv(rules, s, if s.latch then Calling else Estimating, ReadLatch(c, s.latch));
    }
  }

  lemma TickKeepsInv(rules: Rules, s: State, elapsed: nat)
    requires Inv(rules, s)
    ensures Inv(rules, s.(prices := C.Apply(s.prices, C.Tick(elapsed))))
  {
    StageFacts(rules, s, 0);
    CacheStep(s.prices, C.Tick(elapsed));
    WaitingKeepsInv(rules, s, C.Apply(s.prices, C.Tick(elapsed)), 0);
  }

  lemma StepKeepsInv(rules: Rules, s: State, step: Step)
    requires Inv(rules, s)
    ensures Inv(rules, Apply(rules, s, step))
  {
    match step
    case Tick(d) => TickKeepsInv(rules, s, d);
    case Begin(c) => StartFillKeepsInv(rules, s, c);
    case LoadLatch(c) => ReadFlagKeepsInv(rules, s, c);
    case OnEstimate(c, reply) => AnswerEstimateKeepsInv(rules, s, c, reply);
    case OnCall(c, call) => AnswerCallKeepsInv(rules, s, c, call);
    case LockPrice(c) => PriceStepKeepsInv(rules, s, C.Acquire(c));
    case CheckPrice(c) => PriceStepKeepsInv(rules, s, C.Check(c));
    case OnPrice(c, price) => PriceStepKeepsInv(rules, s, C.Reply(c, price));
    case Drop(c) => AbandonKeepsInv(rules, s, c);
  }

  /** Every interleaving of every number of fills. */
  lemma {:induction false} EveryRun(rules: Rules, steps: seq<Step>)
    ensures Inv(rules, Exec(rules, steps))
    decreases |steps|
  {
    if steps == [] {
      C.EveryRun<I64>(rules.priceTtl, []);
    } else {
      EveryRun(rules, steps[..|steps| - 1]);
      StepKeepsInv(rules, Exec(rules, steps[..|steps| - 1]), steps[|steps| - 1]);
    }
  }

  // ---- What that means ----

  /** This step brought the energy: the node's estimate, or a call that did not revert. */
  predicate BringsEnergy(step: Step, answer: Event)
  {
    match answer
    case Estimated(c, energy, _) => step == OnEstimate(c, Amount(energy))
    case Simulated(c, energy, _) => step.OnCall? && step.c == c && EnergyFromCall(step.call) == Ok(energy)
    case _ => false
  }

  /** This step brought the price: the node's reply to this caller, which was fetching under the
      lock, or a look at a cache that was fresh at that moment. */
  predicate BringsPrice(s: State, step: Step, c: Caller, price: I64)
  {
    || (step == OnPrice(c, Some(price)) && s.prices.PhaseOf(c).Fetching?)
    || (step == CheckPrice(c) && C.Fresh(s.prices.cache, s.prices.now, s.prices.ttl)
        && s.prices.cache.value.value == price)
  }

  /** This step left the fill without an estimate: the read-only call failed or reverted, the
      price could not be fetched, or the arithmetic refused the two. */
  ghost predicate LeavesNoEstimate(rules: Rules, s: State, step: Step, c: Caller)
  {
    || (step.OnCall? && step.c == c && s.FillOf(c).Calling?
        && (step.call.Err? || step.call.value.revertReason.Some?))
    || (step == OnPrice(c, None) && s.FillOf(c).Pricing? && s.prices.PhaseOf(c).Fetching?)
    || (s.FillOf(c).Pricing?
        && exists price :: BringsPrice(s, step, c, price) && rules.limitOf(s.FillOf(c).energy, price).Err?)
  }

  /** A step appends at most one event, and the event says what the step brought. */
  ghost predicate Truthful(rules: Rules, s: State, step: Step, s': State)
  {
    || s'.log == s.log
    || (|s'.log| == |s.log| + 1 && s'.log[..|s.log|] == s.log
        && var e := s'.log[|s.log|];
           && (e.Estimated? || e.Simulated? ==> BringsEnergy(step, e) && e.mark == s.Mark())
           && (e.Finished? ==> BringsPrice(s, step, e.c, e.price) && e.use == s.Mark() && e.at == s.prices.now)
           && (e.Failed? || e.Fallback? ==> LeavesNoEstimate(rules, s, step, e.c)))
  }

  /** The step of the price cache that a step of a fill takes. */
  predicate MovesCache(step: Step, inner: C.Step<I64>)
  {
    match step
    case LockPrice(c) => inner == C.Acquire(c)
    case CheckPrice(c) => inner == C.Check(c)
    case OnPrice(c, price) => inner == C.Reply(c, price)
    case _ => false
  }

  /** What reaches a caller in the price cache is what the step brought. */
  lemma ServedIsBrought(s: State, step: Step, inner: C.Step<I64>)
    requires C.Inv(s.prices) && MovesCache(step, inner) && !s.prices.PhaseOf(inner.c).Got?
    ensures var p := C.Apply(s.prices, inner);
      p.PhaseOf(inner.c).Got? ==>
        BringsPrice(s, step, inner.c, p.PhaseOf(inner.c).value) && |p.uses| == s.Mark() + 1 && p.now == s.prices.now
  {
  }

  lemma SettledIsTruthful(rules: Rules, s: State, step: Step, p: C.State<I64>, c: Caller)
    requires s.FillOf(c).Pricing? && p.PhaseOf(c).Got?
    requires BringsPrice(s, step, c, p.PhaseOf(c).value) && |p.uses| == s.Mark() + 1 && p.now == s.prices.now
    ensures Truthful(rules, s, step, Settle(rules, s, p, c))
  {
  }

  lemma PriceStepIsTruthful(rules: Rules, s: State, step: Step, inner: C.Step<I64>)
    requires Inv(rules, s) && MovesCache(step, inner)
    ensures Truthful(rules, s, step, PriceStep(rules, s, inner))
  {
    var c := inner.c;
    if s.FillOf(c).Pricing? {
      StageFacts(rules, s, c);
      ServedIsBrought(s, step, inner);
      var p := C.Apply(s.prices, inner);
      if p.PhaseOf(c).Got? {
        SettledIsTruthful(rules, s, step, p, c);
      } else if p.PhaseOf(c).Failed? {
        assert step == OnPrice(c, None) && s.prices.PhaseOf(c).Fetching?;
      }
    }
  }

  lemma StepIsTruthful(rules: Rules, s: State, step: Step)
    requires Inv(rules, s)
    ensures Truthful(rules, s, step, Apply(rules, s, step))
  {
    match step
    case LockPrice(c) => PriceStepIsTruthful(rules, s, step, C.Acquire(c));
    case CheckPrice(c) => PriceStepIsTruthful(rules, s, step, C.Check(c));
    case OnPrice(c, price) => PriceStepIsTruthful(rules, s, step, C.Reply(c, price));
    case OnEstimate(c, reply) => EstimateIsTruthful(rules, s, c, reply);
    case OnCall(c, call) => CallIsTruthful(rules, s, c, call);
    case _ =>
  }

  lemma EstimateIsTruthful(rules: Rules, s: State, c: Caller, reply: EstimateReply)
    ensures Truthful(rules, s, OnEstimate(c, reply), AnswerEstimate(s, c, reply))
  {
  }

  lemma CallIsTruthful(rules: Rules, s: State, c: Caller, call: Result<CallResult, ProviderError>)
    ensures Truthful(rules, s, OnCall(c, call), AnswerCall(rules, s, c, call))
  {
  }

  ghost predicate Appends(log: seq<Event>, log': seq<Event>)
  {
    log' == log || (|log'| == |log| + 1 && log'[..|log|] == log)
  }

  lemma ExecAppends(rules: Rules, steps: seq<Step>, i: nat)
    requires i < |steps|
    ensures Appends(Exec(rules, steps[..i]).log, Exec(rules, steps[..i + 1]).log)
  {
    assert steps[..i + 1][..i] == steps[..i];
    EveryRun(rules, steps[..i]);
    StepIsTruthful(rules, Exec(rules, steps[..i]), steps[i]);
  }

  lemma AppendsGrows(a: seq<Event>, b: seq<Event>, c: seq<Event>)
    requires a <= b && Appends(b, c)
    ensures a <= c
  {
  }

  /** The log only grows. */
  lemma {:induction false} LogGrows(rules: Rules, steps: seq<Step>, j: nat, i: nat)
    requires j <= i <= |steps|
    ensures Exec(rules, steps[..j]).log <= Exec(rules, steps[..i]).log
    decreases i
  {
    if j < i {
      LogGrows(rules, steps, j, i - 1);
      ExecAppends(rules, steps, i - 1);
      AppendsGrows(Exec(rules, steps[..j]).log, Exec(rules, steps[..i - 1]).log, Exec(rules, steps[..i]).log);
    }
  }

  /** The step that recorded an event. */
  lemma {:induction false} WhenLogged(rules: Rules, steps: seq<Step>, n: nat, k: nat) returns (i: nat)
    requires n <= |steps| && k < |Exec(rules, steps[..n]).log|
    ensures i < n && |Exec(rules, steps[..i]).log| == k && |Exec(rules, steps[..i + 1]).log| == k + 1
    decreases n
  {
    assert n > 0;
    ExecAppends(rules, steps, n - 1);
    if k < |Exec(rules, steps[..n - 1]).log| {
      i := WhenLogged(rules, steps, n - 1, k);
    } else {
      i := n - 1;
    }
  }

  lemma RecordedBefore(rules: Rules, steps: seq<Step>, i: nat, j: nat)
    requires i <= |steps| && j <= |steps|
    requires |Exec(rules, steps[..i]).log| < |Exec(rules, steps[..j]).log|
    ensures i < j
  {
    if j <= i {
      LogGrows(rules, steps, j, i);
    }
  }

  /** The `i`-th step of the run recorded this event. */
  ghost predicate Records(rules: Rules, steps: seq<Step>, i: int, e: Event)
  {
    0 <= i < |steps| && Exec(rules, steps[..i + 1]).log == Exec(rules, steps[..i]).log + [e]
  }

  lemma RecordedIsTruthful(rules: Rules, steps: seq<Step>, k: nat) returns (i: nat)
    requires k < |Exec(rules, steps).log|
    ensures var e := Exec(rules, steps).log[k];
      && Records(rules, steps, i, e) && |Exec(rules, steps[..i]).log| == k
      && (e.Estimated? || e.Simulated? ==> BringsEnergy(steps[i], e))
      && (e.Finished? ==> BringsPrice(Exec(rules, steps[..i]), steps[i], e.c, e.price))
      && (e.Failed? || e.Fallback? ==> LeavesNoEstimate(rules, Exec(rules, steps[..i]), steps[i], e.c))
  {
    assert steps[..|steps|] == steps;
    i := WhenLogged(rules, steps, |steps|, k);
    LogGrows(rules, steps, i + 1, |steps|);
    assert steps[..i + 1][..i] == steps[..i];
    EveryRun(rules, steps[..i]);
    StepIsTruthful(rules, Exec(rules, steps[..i]), steps[i]);
    assert Exec(rules, steps[..i + 1]).log[k] == Exec(rules, steps).log[k];
  }

  /** No guessed limit, in any run. When a fill finishes with a limit, the `j`-th step ended it
      by bringing the price - the node's reply to this very caller, or a look at a cache younger
      than the TTL at that moment - and an earlier step, the `i`-th, brought the energy; that
      answer is the last thing this caller did, and the limit is the arithmetic on the two.
      Under `Fail` no fill ends with the fallback. */
  lemma NoGuessedLimits(settings: Settings, steps: seq<Step>, k: nat) returns (i: nat, j: nat)
    requires k < |Exec(RulesOf(settings), steps).log|
    ensures var rules := RulesOf(settings);
      var log := Exec(rules, steps).log;
      var e := log[k];
      && (settings.onFailure.Fail? ==> !e.Fallback?)
      && (e.Finished? ==>
            && var answer := Last(log[..k], e.c);
            && answer.Some? && (answer.value.Estimated? || answer.value.Simulated?)
            && Limit(settings, answer.value.energy, e.price) == Ok(e.limit)
            && i < j && Records(rules, steps, i, answer.value) && Records(rules, steps, j, e)
            && BringsEnergy(steps[i], answer.value)
            && BringsPrice(Exec(rules, steps[..j]), steps[j], e.c, e.price)
            && Exec(rules, steps[..j]).prices.ttl == settings.priceTtl)
  {
    var rules := RulesOf(settings);
    EveryRun(rules, steps);
    var s := Exec(rules, steps);
    var e := s.log[k];
    assert Follows(rules, s.prices.uses, Last(s.log[..k], e.c), e);
    i, j := 0, 0;
    if e.Finished? {
      j := RecordedIsTruthful(rules, steps, k);
      var r := LastIndex(s.log[..k], e.c);
      i := RecordedIsTruthful(rules, steps, r);
      RecordedBefore(rules, steps, i, j);
      EveryRun(rules, steps[..j]);
    }
  }

  /** A fill gives up - failing under `Fail`, taking the fallback otherwise - only when a step of
      the run left it without an estimate; a node that does not answer, or refuses, the estimate
      is no reason. */
  lemma GivesUpOnlyWithoutAnEstimate(settings: Settings, steps: seq<Step>, k: nat) returns (i: nat)
    requires k < |Exec(RulesOf(settings), steps).log|
    ensures var rules := RulesOf(settings);
      var e := Exec(rules, steps).log[k];
      e.Failed? || e.Fallback? ==>
        && (e.Failed? <==> settings.onFailure == Fail)
        && Records(rules, steps, i, e) && LeavesNoEstimate(rules, Exec(rules, steps[..i]), steps[i], e.c)
  {
    var rules := RulesOf(settings);
    EveryRun(rules, steps);
    var s := Exec(rules, steps);
    assert Follows(rules, s.prices.uses, Last(s.log[..k], s.log[k].c), s.log[k]);
    i := RecordedIsTruthful(rules, steps, k);
  }

  /** The latch is set by a refusal and by nothing else, and it stays set. */
  lemma LatchRemembersRefusals(settings: Settings, steps: seq<Step>, step: Step)
    ensures var s := Exec(RulesOf(settings), steps);
      && (s.latch <==> HasRefusal(s.log))
      && (s.latch ==> Apply(RulesOf(settings), s, step).latch)
      && (Apply(RulesOf(settings), s, step).latch && !s.latch ==> step.OnEstimate? && step.reply.NotOffered?)
  {
    EveryRun(RulesOf(settings), steps);
  }

  /** A fill puts the question exactly when it read the latch before anyone was refused. So a
      node can be asked again after refusing, but only by fills that were already past the
      latch: the reading comes before the earlier refusal. */
  lemma AskedAgainOnlyByEarlierReaders(settings: Settings, steps: seq<Step>, i: nat, j: nat) returns (r: nat)
    requires var log := Exec(RulesOf(settings), steps).log; i < j < |log| && log[i].Refused? && log[j].Refused?
    ensures var log := Exec(RulesOf(settings), steps).log; r < i && log[r] == ReadLatch(log[j].c, false)
    ensures var log := Exec(RulesOf(settings), steps).log; forall m :: r < m < j ==> log[m].c != log[j].c
  {
    EveryRun(RulesOf(settings), steps);
    var s := Exec(RulesOf(settings), steps);
    r := ReadBeforeRefusal(RulesOf(settings), s.prices.uses, s.log, i, j);
  }

  lemma ReadBeforeRefusal(s: Rules, uses: seq<C.Use<I64>>, log: seq<Event>, i: nat, j: nat) returns (r: nat)
    requires Legal(s, uses, log) && LatchReadsAreAccurate(log)
    requires i < j < |log| && log[i].Refused? && log[j].Refused?
    ensures r < i && log[r] == ReadLatch(log[j].c, false)
    ensures forall m :: r < m < j ==> log[m].c != log[j].c
  {
    var c, before := log[j].c, log[..j];
    assert Follows(s, uses, Last(before, c), log[j]);
    r := LastIndex(before, c);
    assert log[r] == ReadLatch(c, false);
    forall m | r < m < j ensures log[m].c != c {
      assert before[m] == log[m];
    }
    assert !HasRefusal(log[..r]);
    assert forall m :: 0 <= m < r ==> log[..r][m] == log[m];
  }

  ghost predicate FirstRefusal(log: seq<Event>, i: int)
  {
    0 <= i < |log| && log[i].Refused? && forall j :: 0 <= j < i ==> !log[j].Refused?
  }

  /** The last thing this caller did was to read the latch as unset, before the `i`-th event. */
  ghost predicate ReadLast(log: seq<Event>, i: int, c: Caller, r: int)
  {
    0 <= r < i && r < |log| && log[r] == ReadLatch(c, false) && forall m :: r < m < |log| ==> log[m].c != c
  }

  /** Exactly who can still be refused after the first refusal: a fill whose last act was to read
      the latch before that refusal. */
  lemma RefusedAgainExactly(settings: Settings, steps: seq<Step>, i: nat, c: Caller)
    requires FirstRefusal(Exec(RulesOf(settings), steps).log, i)
    ensures var rules := RulesOf(settings);
      var s := Exec(rules, steps);
      Apply(rules, s, OnEstimate(c, NotOffered)).log == s.log + [Refused(c)] <==> exists r :: ReadLast(s.log, i, c, r)
  {
    var rules := RulesOf(settings);
    var s := Exec(rules, steps);
    EveryRun(rules, steps);
    RefusalNeedsTheQuestion(rules, s, c);
    EstimatingExactly(rules, s, c);
    LastReadExactly(s.log, i, c);
  }

  lemma RefusalNeedsTheQuestion(rules: Rules, s: State, c: Caller)
    ensures Apply(rules, s, OnEstimate(c, NotOffered)).log
         == if s.FillOf(c).Estimating? then s.log + [Refused(c)] else s.log
  {
  }

  lemma EstimatingExactly(rules: Rules, s: State, c: Caller)
    requires Inv(rules, s)
    ensures s.FillOf(c).Estimating? <==> Last(s.log, c) == Some(ReadLatch(c, false))
    ensures LatchReadsAreAccurate(s.log)
  {
    StageFacts(rules, s, c);
  }

  lemma RefusedBy(log: seq<Event>, i: nat, r: nat)
    requires i < r <= |log| && log[i].Refused?
    ensures HasRefusal(log[..r])
  {
    assert log[..r][i] == log[i];
  }

  lemma LastReadExactly(log: seq<Event>, i: nat, c: Caller)
    requires LatchReadsAreAccurate(log) && FirstRefusal(log, i)
    ensures Last(log, c) == Some(ReadLatch(c, false)) <==> exists r :: ReadLast(log, i, c, r)
  {
    if Last(log, c) == Some(ReadLatch(c, false)) {
      var r := LastIndex(log, c);
      if r > i {
        RefusedBy(log, i, r);
      }
      assert ReadLast(log, i, c, r);
    } else if r :| ReadLast(log, i, c, r) {
      LastOf(log, c, r);
    }
  }

  lemma {:induction false} LastOf(log: seq<Event>, c: Caller, r: nat)
    requires r < |log| && log[r].c == c && forall m :: r < m < |log| ==> log[m].c != c
    ensures Last(log, c) == Some(log[r])
  {
    if r < |log| - 1 {
      LastOf(log[..|log| - 1], c, r);
    }
  }

  ghost predicate RefusedOnce(log: seq<Event>)
  {
    forall a, b :: 0 <= a < |log| && 0 <= b < |log| && log[a].Refused? && log[b].Refused? ==> a == b
  }

  /** However the run goes on, the node is refused at most once. */
  ghost predicate StaysAtOnce(rules: Rules, steps: seq<Step>)
  {
    forall more: seq<Step> :: RefusedOnce(Exec(rules, steps + more).log)
  }

  /** No fill is between its reading of the latch and the answer to its estimate. */
  ghost predicate NobodyAsks(s: State) { forall c: Caller :: !s.FillOf(c).Estimating? }

  /** When "only asked once" does hold: at the first refusal, every continuation of the run stays
      with that one refusal exactly when no other fill is between its reading of the latch and
      the answer to its estimate. */
  lemma AskedOnceExactlyWhen(settings: Settings, steps: seq<Step>)
    requires var log := Exec(RulesOf(settings), steps).log; FirstRefusal(log, |log| - 1)
    ensures StaysAtOnce(RulesOf(settings), steps) <==> NobodyAsks(Exec(RulesOf(settings), steps))
  {
    if NobodyAsks(Exec(RulesOf(settings), steps)) {
      forall more: seq<Step> ensures RefusedOnce(Exec(RulesOf(settings), steps + more).log) {
        NobodyElseAsks(settings, steps, more);
      }
    } else {
      SomebodyAsks(RulesOf(settings), steps);
    }
  }

  lemma SomebodyAsks(rules: Rules, steps: seq<Step>)
    requires EndsRefused(Exec(rules, steps).log) && !NobodyAsks(Exec(rules, steps))
    ensures !StaysAtOnce(rules, steps)
  {
    var c: Caller :| Exec(rules, steps).FillOf(c).Estimating?;
    AskedTwice(rules, steps, c);
  }

  lemma AskedTwice(rules: Rules, steps: seq<Step>, c: Caller)
    requires Exec(rules, steps).FillOf(c).Estimating? && EndsRefused(Exec(rules, steps).log)
    ensures !RefusedOnce(Exec(rules, steps + [OnEstimate(c, NotOffered)]).log)
  {
    NextRefusal(rules, steps, c);
    TwoRefusals(Exec(rules, steps).log, Exec(rules, steps + [OnEstimate(c, NotOffered)]).log, c);
  }

  lemma OneStep(rules: Rules, steps: seq<Step>, a: Step)
    ensures Exec(rules, steps + [a]) == Apply(rules, Exec(rules, steps), a)
  {
    assert (steps + [a])[..|steps|] == steps;
  }

  lemma NextRefusal(rules: Rules, steps: seq<Step>, c: Caller)
    requires Exec(rules, steps).FillOf(c).Estimating?
    ensures Exec(rules, steps + [OnEstimate(c, NotOffered)]).log == Exec(rules, steps).log + [Refused(c)]
  {
    OneStep(rules, steps, OnEstimate(c, NotOffered));
    RefusalNeedsTheQuestion(rules, Exec(rules, steps), c);
  }

  ghost predicate EndsRefused(log: seq<Event>) { log != [] && log[|log| - 1].Refused? }

  lemma TwoRefusals(log: seq<Event>, log': seq<Event>, c: Caller)
    requires EndsRefused(log) && log' == log + [Refused(c)]
    ensures !RefusedOnce(log')
  {
    assert log'[|log| - 1].Refused? && log'[|log|].Refused?;
  }

  lemma NobodyElseAsks(settings: Settings, steps: seq<Step>, more: seq<Step>)
    requires var log := Exec(RulesOf(settings), steps).log; FirstRefusal(log, |log| - 1)
    requires NobodyAsks(Exec(RulesOf(settings), steps))
    ensures RefusedOnce(Exec(RulesOf(settings), steps + more).log)
  {
    var rules := RulesOf(settings);
    var early, log := Exec(rules, steps).log, Exec(rules, steps + more).log;
    var i := |early| - 1;
    EveryRun(rules, steps);
    LogGrows(rules, steps + more, |steps|, |steps + more|);
    assert (steps + more)[..|steps|] == steps && (steps + more)[..|steps + more|] == steps + more;
    forall j | i < j < |log| ensures !log[j].Refused? {
      if log[j].Refused? {
        var r := AskedAgainOnlyByEarlierReaders(settings, steps + more, i, j);
        LastOf(early, log[j].c, r);
      }
    }
  }

  lemma {:induction false} LastIndex(log: seq<Event>, c: Caller) returns (r: nat)
    requires Last(log, c).Some?
    ensures r < |log| && log[r] == Last(log, c).value && log[r].c == c
    ensures forall m :: r < m < |log| ==> log[m].c != c
  {
    var n := |log| - 1;
    if log[n].c == c { r := n; } else { r := LastIndex(log[..n], c); }
  }

  /** "A node that does not offer it is only asked once" does not hold for fills that
      overlap: two that both read the latch first are both refused. */
  lemma OverlappingFillsAskTwice(settings: Settings) returns (steps: seq<Step>)
    ensures var log := Exec(RulesOf(settings), steps).log;
      |log| == 6 && log[4] == Refused(0) && log[5] == Refused(1)
  {
    var rules := RulesOf(settings);
    steps := [] + [Begin(0), Begin(1)];
    BothBegin(rules);
    BothRead(rules, steps);
    steps := steps + [LoadLatch(0), LoadLatch(1)];
    BothRefused(rules, steps);
    steps := steps + [OnEstimate(0, NotOffered), OnEstimate(1, NotOffered)];
  }

  predicate Both(s: State, f: Fill, n: nat) { s.FillOf(0) == f && s.FillOf(1) == f && |s.log| == n }

  lemma BothBegin(rules: Rules)
    ensures var s' := Exec(rules, [] + [Begin(0), Begin(1)]); Both(s', Begun, 2) && !s'.latch
  {
    TwoSteps(rules, [], Begin(0), Begin(1));
  }

  lemma BothRead(rules: Rules, steps: seq<Step>)
    requires var s := Exec(rules, steps); Both(s, Begun, 2) && !s.latch
    ensures Both(Exec(rules, steps + [LoadLatch(0), LoadLatch(1)]), Estimating, 4)
  {
    TwoSteps(rules, steps, LoadLatch(0), LoadLatch(1));
  }

  lemma BothRefused(rules: Rules, steps: seq<Step>)
    requires Both(Exec(rules, steps), Estimating, 4)
    ensures var log := Exec(rules, steps + [OnEstimate(0, NotOffered), OnEstimate(1, NotOffered)]).log;
      |log| == 6 && log[4] == Refused(0) && log[5] == Refused(1)
  {
    TwoSteps(rules, steps, OnEstimate(0, NotOffered), OnEstimate(1, NotOffered));
  }

  lemma TwoSteps(rules: Rules, steps: seq<Step>, a: Step, b: Step)
    ensures Exec(rules, steps + [a, b]) == Apply(rules, Apply(rules, Exec(rules, steps), a), b)
  {
    var two := steps + [a, b];
    assert two[..|steps| + 1] == steps + [a] && (steps + [a])[..|steps|] == steps;
  }

  // ---- A fill that nobody disturbs is the sequential one ----

  function Play(rules: Rules, s: State, steps: seq<Step>): State
    decreases |steps|
  {
    if steps == [] then s else Play(rules, Apply(rules, s, steps[0]), steps[1..])
  }

  lemma {:induction false} PlayConcat(rules: Rules, s: State, a: seq<Step>, b: seq<Step>)
    ensures Play(rules, s, a + b) == Play(rules, Play(rules, s, a), b)
    decreases |a|
  {
    if a == [] {
      assert a + b == b;
    } else {
      assert (a + b)[1..] == a[1..] + b;
      PlayConcat(rules, Apply(rules, s, a[0]), a[1..], b);
    }
  }

  lemma PlayOne(rules: Rules, s: State, step: Step)
    ensures Play(rules, s, [step]) == Apply(rules, s, step)
  {
    assert [step][1..] == [];
  }

  /** The fill has ended, without an estimate. */
  ghost predicate EndedWithout(rules: Rules, s: State, c: Caller)
  {
    s.FillOf(c).Out? && s.log != [] && s.log[|s.log| - 1] == WithoutEstimate(rules, c)
  }

  ghost predicate EndedWith(s: State, c: Caller, limit: I64)
  {
    && s.FillOf(c).Out? && s.log != []
    && s.log[|s.log| - 1].Finished? && s.log[|s.log| - 1].c == c && s.log[|s.log| - 1].limit == limit
  }

  /** What the node's estimate means to the run. */
  function ReplyOf(node: NodeAnswers): EstimateReply
  {
    match node.estimate
    case Ok(energy) => Amount(energy)
    case Err(e) => if e.Unsupported? then NotOffered else Unreachable
  }

  lemma ToTheCall(rules: Rules, s: State, c: Caller, node: NodeAnswers)
    requires s.FillOf(c).Calling?
    ensures var s' := Apply(rules, s, OnCall(c, node.call));
      match EnergyFromCall(node.call)
      case Ok(energy) =>
        s'.FillOf(c) == Pricing(energy) && s'.prices == C.Apply(s.prices, C.Ask(c)) && s'.latch == s.latch
      case Err(_) => EndedWithout(rules, s', c) && s'.prices == s.prices && s'.latch == s.latch
  {
  }

  lemma ToTheAnswer(rules: Rules, s: State, c: Caller, node: NodeAnswers)
    requires s.FillOf(c).Estimating?
    ensures var s' := Apply(rules, s, OnEstimate(c, ReplyOf(node)));
      match node.estimate
      case Ok(energy) =>
        s'.FillOf(c) == Pricing(energy) && s'.prices == C.Apply(s.prices, C.Ask(c)) && s'.latch == s.latch
      case Err(e) => s'.FillOf(c).Calling? && s'.prices == s.prices && s'.latch == (s.latch || e.Unsupported?)
  {
  }

  lemma ToTheLatch(rules: Rules, s: State, c: Caller)
    requires s.FillOf(c).Out?
    ensures var s' := Play(rules, s, [Begin(c), LoadLatch(c)]);
      s'.FillOf(c) == (if s.latch then Calling else Estimating) && s'.prices == s.prices && s'.latch == s.latch
  {
    assert [Begin(c), LoadLatch(c)][1..] == [LoadLatch(c)];
    PlayOne(rules, Apply(rules, s, Begin(c)), LoadLatch(c));
  }

  /** Up to the price, a fill learns what `EnergyNeeded` says. */
  lemma EnergyStage(rules: Rules, s: State, c: Caller, node: NodeAnswers) returns (steps: seq<Step>)
    requires s.FillOf(c).Out?
    ensures var (s', needed) := (Play(rules, s, steps), EnergyNeeded(s.latch, node));
      && s'.latch == needed.0
      && match needed.1
         case Ok(energy) => s'.FillOf(c) == Pricing(energy) && s'.prices == C.Apply(s.prices, C.Ask(c))
         case Err(_) => EndedWithout(rules, s', c) && s'.prices == s.prices
  {
    steps := [Begin(c), LoadLatch(c)];
    ToTheLatch(rules, s, c);
    var s1 := Play(rules, s, steps);
    if !s.latch {
      ToTheAnswer(rules, s1, c, node);
      PlayOne(rules, s1, OnEstimate(c, ReplyOf(node)));
      PlayConcat(rules, s, steps, [OnEstimate(c, ReplyOf(node))]);
      steps := steps + [OnEstimate(c, ReplyOf(node))];
    }
    var s2 := Play(rules, s, steps);
    if s.latch || node.estimate.Err? {
      ToTheCall(rules, s2, c, node);
      PlayOne(rules, s2, OnCall(c, node.call));
      PlayConcat(rules, s, steps, [OnCall(c, node.call)]);
      steps := steps + [OnCall(c, node.call)];
    }
  }

  ghost predicate Ended(rules: Rules, s: State, c: Caller, limit: Result<I64, ProviderError>)
  {
    if limit.Ok? then EndedWith(s, c, limit.value) else EndedWithout(rules, s, c)
  }

  lemma LockThePrice(rules: Rules, s: State, c: Caller)
    requires s.FillOf(c).Pricing? && s.prices.PhaseOf(c).Queued? && s.prices.lock.None?
    ensures var s' := Apply(rules, s, LockPrice(c));
      && s'.FillOf(c) == s.FillOf(c) && s'.latch == s.latch && s'.prices.PhaseOf(c).Holding?
      && s'.prices.cache == s.prices.cache && s'.prices.now == s.prices.now && s'.prices.ttl == s.prices.ttl
  {
  }

  lemma CheckThePrice(rules: Rules, s: State, c: Caller)
    requires s.FillOf(c).Pricing? && s.prices.PhaseOf(c).Holding?
    ensures var s' := Apply(rules, s, CheckPrice(c));
      && s'.latch == s.latch && s'.prices.cache == s.prices.cache && s'.prices.now == s.prices.now
      && if C.Fresh(s.prices.cache, s.prices.now, s.prices.ttl)
         then Ended(rules, s', c, rules.limitOf(s.FillOf(c).energy, s.prices.cache.value.value))
         else s'.FillOf(c) == s.FillOf(c) && s'.prices.PhaseOf(c).Fetching?
  {
  }

  lemma FetchThePrice(rules: Rules, s: State, c: Caller, price: Option<I64>)
    requires s.FillOf(c).Pricing? && s.prices.PhaseOf(c).Fetching?
    ensures var s' := Apply(rules, s, OnPrice(c, price));
      && s'.latch == s.latch
      && if price.None? then EndedWithout(rules, s', c) && s'.prices.cache == s.prices.cache
         else Ended(rules, s', c, rules.limitOf(s.FillOf(c).energy, price.value))
              && s'.prices.cache == Some(C.Entry(price.value, s.prices.now))
  {
  }

  /** Through the price cache, with the lock free, a fill is served as `Serve` says. */
  lemma PriceStage(rules: Rules, s: State, c: Caller, node: NodeAnswers) returns (steps: seq<Step>)
    requires s.FillOf(c).Pricing? && s.prices.PhaseOf(c).Queued? && s.prices.lock.None?
    requires node.checkedAt == node.repliedAt == s.prices.now
    ensures var s' := Play(rules, s, steps);
      var served := C.Serve(s.prices.cache, s.prices.ttl, node.checkedAt, node.price, node.repliedAt);
      && s'.prices.cache == served.0 && s'.latch == s.latch
      && Ended(rules, s', c,
               if served.1.Ok? then rules.limitOf(s.FillOf(c).energy, served.1.value) else Err(served.1.error))
  {
    var locked := Apply(rules, s, LockPrice(c));
    var checked := Apply(rules, locked, CheckPrice(c));
    LockThePrice(rules, s, c);
    CheckThePrice(rules, locked, c);
    PlayTwo(rules, s, LockPrice(c), CheckPrice(c));
    steps := [LockPrice(c), CheckPrice(c)];
    if !C.Fresh(s.prices.cache, s.prices.now, s.prices.ttl) {
      var reply := if node.price.Ok? then Some(node.price.value) else None;
      FetchThePrice(rules, checked, c, reply);
      PlayOne(rules, checked, OnPrice(c, reply));
      PlayConcat(rules, s, steps, [OnPrice(c, reply)]);
      steps := steps + [OnPrice(c, reply)];
    }
  }

  lemma PlayTwo(rules: Rules, s: State, a: Step, b: Step)
    ensures Play(rules, s, [a, b]) == Apply(rules, Apply(rules, s, a), b)
  {
    assert [a, b][1..] == [b];
    PlayOne(rules, Apply(rules, s, a), b);
  }

  /** From any reachable state with the price cache unlocked, a fill that runs undisturbed ends as
      the sequential estimate does, with the same cache and latch behind it. */
  lemma LoneFillIsTheEstimate(settings: Settings, s: State, c: Caller, node: NodeAnswers) returns (steps: seq<Step>)
    requires Inv(RulesOf(settings), s) && s.FillOf(c).Out? && s.prices.lock.None?
    requires node.checkedAt == node.repliedAt == s.prices.now
    ensures var rules := RulesOf(settings);
      var s' := Play(rules, s, steps);
      var (shared, r) := Estimate(settings, Shared(s.prices.cache, s.latch), node);
      && Shared(s'.prices.cache, s'.latch) == shared
      && if r.Ok? then EndedWith(s', c, r.value) else EndedWithout(rules, s', c)
  {
    var rules := RulesOf(settings);
    StageFacts(rules, s, c);
    steps := EnergyStage(rules, s, c, node);
    if EnergyNeeded(s.latch, node).1.Ok? {
      var more := PriceStage(rules, Play(rules, s, steps), c, node);
      PlayConcat(rules, s, steps, more);
      steps := steps + more;
    }
  }
}
