/** Requests, blocks and errors as the fillers see them. */
module ProviderTypes {
  import opened Wrappers
  import opened Integers
  import opened ChainTypes

  datatype ProviderError =
    | Unsupported(reason: string)
    | Transport(reason: string)
    | Malformed(energy: int, price: int)
    | Reverted(reason: string)
    | NegativeAmount(sun: int)
    | InvertedBounds(min: int, max: int)
    | MissingField(name: string)
    | NoSigner
    | MissingCredential(key: Address)

  datatype Operation =
    | TriggerSmartContract(owner: Address)
    | CreateSmartContract(owner: Address)
    | Native(owner: Address)
  {
    predicate NeedsFeeLimit() { TriggerSmartContract? || CreateSmartContract? }
  }

  datatype TransactionRequest = TransactionRequest(
    contract: Option<Operation>,
    feeLimit: Option<I64>,
    memo: Option<seq<byte>>,
    permissionId: Option<int>,
    refBlockBytes: Option<seq<byte>>,
    refBlockHash: Option<seq<byte>>,
    expiration: Option<int>,
    timestamp: Option<I64>)
  {
    predicate NeedsFeeLimit() { contract.Some? && contract.value.NeedsFeeLimit() }
  }

  datatype BlockInfo = BlockInfo(number: I64, hash: B256, timestamp: I64)
  {
    /** The last two bytes of the big-endian height. */
    function RefBlockBytes(): seq<byte> { [(number / 256 % 256) as byte, (number % 256) as byte] }

    /** The second quarter of the block id. */
    function RefBlockHash(): (r: seq<byte>)
      ensures |r| == 8 && forall i :: 0 <= i < 8 ==> r[i] == hash[8 + i]
    {
      hash[8..16]
    }
  }

  /** The reference bytes are the height modulo 2^16, big-endian, negative heights included:
      two blocks share them exactly when their heights agree there. */
  lemma RefBytesAreTheHeight(a: BlockInfo, b: BlockInfo)
    ensures |a.RefBlockBytes()| == 2
    ensures a.RefBlockBytes()[0] as int * 256 + a.RefBlockBytes()[1] as int == a.number % 65536
    ensures a.RefBlockBytes() == b.RefBlockBytes() <==> a.number % 65536 == b.number % 65536
  {
    LowBytes(a.number);
    LowBytes(b.number);
    var x, y := a.RefBlockBytes(), b.RefBlockBytes();
    assert x == y <==> x[0] == y[0] && x[1] == y[1];
  }

  lemma LowBytes(n: int)
    ensures n / 256 % 256 * 256 + n % 256 == n % 65536
  {
    var q := n / 256;
    assert n == q * 256 + n % 256;
    assert q == q / 256 * 256 + q % 256;
    assert n == q / 256 * 65536 + (q % 256 * 256 + n % 256);
  }
}

/** `TaposFiller` (crates/provider/src/fillers/mod.rs). */
module Tapos {
  import opened Wrappers
  import opened Integers
  import opened ChainTypes
  import opened ProviderTypes
  import opened TtlCache

  const DEFAULT_EXPIRY_MS: nat := 300_000
  const DEFAULT_BLOCK_TTL_MS: nat := 3_000

  /** The expiry time of a transaction built on `block` fits 64 bits; durations are in milliseconds. */
  predicate UsableBlock(block: BlockInfo, expiryMs: nat)
  {
    block.timestamp + expiryMs <= I64_MAX
  }

  /** The filler keeps whole seconds of its expiry. */
  function Filled(tx: TransactionRequest, block: BlockInfo, expiryMs: nat): TransactionRequest
  {
    tx.(refBlockBytes := Some(block.RefBlockBytes()),
        refBlockHash := Some(block.RefBlockHash()),
        timestamp := Some(block.timestamp),
        expiration := Some(block.timestamp + expiryMs / 1000 * 1000))
  }

  /** `TransactionRequest::with_tapos`, which fills from a block already in hand. */
  function WithTapos(tx: TransactionRequest, block: BlockInfo, expiryMs: nat): TransactionRequest
  {
    tx.(refBlockBytes := Some(block.RefBlockBytes()),
        refBlockHash := Some(block.RefBlockHash()),
        timestamp := Some(block.timestamp),
        expiration := Some(block.timestamp + expiryMs))
  }

  /** The two ways of filling agree exactly when the expiry is a whole number of seconds. */
  lemma FillerAgreesWithTapos(tx: TransactionRequest, block: BlockInfo, expiryMs: nat)
    ensures Filled(tx, block, expiryMs) == WithTapos(tx, block, expiryMs) <==> expiryMs % 1000 == 0
  {
    assert expiryMs == expiryMs / 1000 * 1000 + expiryMs % 1000;
  }

  /** What a filled request says: the block's reference, its own time as the baseline, and that
      time plus the whole seconds of the expiry; nothing else of it changes. */
  lemma FilledMeaning(tx: TransactionRequest, block: BlockInfo, expiryMs: nat)
    ensures var r := Filled(tx, block, expiryMs);
      && r.refBlockBytes == Some([(block.number % 65536 / 256) as byte, (block.number % 256) as byte])
      && r.refBlockHash.Some? && |r.refBlockHash.value| == 8
      && (forall i :: 0 <= i < 8 ==> r.refBlockHash.value[i] == block.hash[8 + i])
      && r.timestamp == Some(block.timestamp)
      && r.expiration.Some? && (r.expiration.value - block.timestamp) % 1000 == 0
      && r.expiration.value - block.timestamp <= expiryMs < r.expiration.value - block.timestamp + 1000
      && r.(refBlockBytes := tx.refBlockBytes, refBlockHash := tx.refBlockHash,
            timestamp := tx.timestamp, expiration := tx.expiration) == tx
  {
    LowBytes(block.number);
    assert expiryMs == expiryMs / 1000 * 1000 + expiryMs % 1000;
  }

  /** Filling is idempotent at the level of the request: a filled request is left alone. */
  function FillTapos(tx: TransactionRequest, cache: Option<Entry<BlockInfo>>, ttl: nat, expiryMs: nat,
      node: BlockAnswer)
    : (Option<Entry<BlockInfo>>, Result<TransactionRequest, ProviderError>)
  {
    if tx.refBlockBytes.Some? then (cache, Ok(tx))
    else
      var (cache', r) := Serve(cache, ttl, node.checkedAt, node.reply, node.repliedAt);
      (cache', if r.Ok? then Ok(Filled(tx, r.value, expiryMs)) else Err(r.error))
  }

  /** Which block a fill refers to: a request that has a reference is left alone; otherwise it is
      the cached block while that is younger than the TTL, else the one fetched, which is then
      cached with the time of the reply; a failed fetch is reported and caches nothing. */
  lemma FillTaposOutcome(tx: TransactionRequest, cache: Option<Entry<BlockInfo>>, ttl: nat, expiryMs: nat,
      node: BlockAnswer)
    ensures var (after, r) := FillTapos(tx, cache, ttl, expiryMs, node);
      if tx.refBlockBytes.Some? then after == cache && r == Ok(tx)
      else if cache.Some? && node.checkedAt - cache.value.stamp < ttl then
        after == cache && r == Ok(Filled(tx, cache.value.value, expiryMs))
      else if node.reply.Ok? then
        && after == Some(Entry(node.reply.value, node.repliedAt))
        && r == Ok(Filled(tx, node.reply.value, expiryMs))
      else after == cache && r == Err(node.reply.error)
  {
  }

  /** When the cache is looked at, and what `get_now_block` would answer and when. */
  datatype BlockAnswer = BlockAnswer(checkedAt: nat, reply: Result<BlockInfo, ProviderError>, repliedAt: nat)
  {
    predicate Usable(expiryMs: nat) { reply.Ok? ==> UsableBlock(reply.value, expiryMs) }
  }

  class TaposFiller {
    const expiryMs: nat
    const blockTtlMs: nat
    const cached: Cell<BlockInfo>

    constructor (expiryMs: nat := DEFAULT_EXPIRY_MS, blockTtlMs: nat := DEFAULT_BLOCK_TTL_MS)
      ensures this.expiryMs == expiryMs && this.blockTtlMs == blockTtlMs
      ensures fresh(cached) && cached.entry == None
    {
      this.expiryMs, this.blockTtlMs := expiryMs, blockTtlMs;
      cached := new Cell();
    }

    /** A clone shares the cache. */
    constructor Clone(other: TaposFiller)
      ensures expiryMs == other.expiryMs && blockTtlMs == other.blockTtlMs && cached == other.cached
    {
      expiryMs, blockTtlMs, cached := other.expiryMs, other.blockTtlMs, other.cached;
    }

    method Fill(tx: TransactionRequest, node: BlockAnswer) returns (r: Result<TransactionRequest, ProviderError>)
      requires node.Usable(expiryMs) && (cached.entry.Some? ==> UsableBlock(cached.entry.value.value, expiryMs))
      modifies cached
      ensures (cached.entry, r) == FillTapos(tx, old(cached.entry), blockTtlMs, expiryMs, node)
      ensures cached.entry.Some? ==> UsableBlock(cached.entry.value.value, expiryMs)
      ensures r.Ok? && tx.refBlockBytes.None? ==>
        r.value.expiration.Some? && I64_MIN <= r.value.expiration.value <= I64_MAX
    {
      if tx.refBlockBytes.Some? {
        return Ok(tx);
      }
      var served := cached.GetOrFetch(blockTtlMs, node.checkedAt, node.reply, node.repliedAt);
      if served.Err? {
        return Err(served.error);
      }
      var expiration: I64 := served.value.timestamp + expiryMs / 1000 * 1000;
      return Ok(tx.(refBlockBytes := Some(served.value.RefBlockBytes()),
                    refBlockHash := Some(served.value.RefBlockHash()),
                    timestamp := Some(served.value.timestamp), expiration := Some(expiration)));
    }
  }

  /** Two fills through one cache inside its TTL refer to the same block, whichever clone
      runs them and whatever the node would have answered the second time; filling what is
      already filled changes nothing and leaves the cache alone. */
  lemma BurstsShareOneBlock(tx1: TransactionRequest, tx2: TransactionRequest, cache: Option<Entry<BlockInfo>>,
      ttl: nat, expiryMs: nat, n1: BlockAnswer, n2: BlockAnswer)
    requires tx1.refBlockBytes.None? && tx2.refBlockBytes.None?
    requires FillTapos(tx1, cache, ttl, expiryMs, n1).1.Ok?
    requires var after := FillTapos(tx1, cache, ttl, expiryMs, n1).0; Fresh(after, n2.checkedAt, ttl)
    ensures var (c1, r1) := FillTapos(tx1, cache, ttl, expiryMs, n1);
      var (c2, r2) := FillTapos(tx2, c1, ttl, expiryMs, n2);
      && c2 == c1 && r2.Ok?
      && r2.value.refBlockBytes == r1.value.refBlockBytes && r2.value.refBlockHash == r1.value.refBlockHash
      && r2.value.timestamp == r1.value.timestamp && r2.value.expiration == r1.value.expiration
      && FillTapos(r1.value, c1, ttl, expiryMs, n2) == (c1, r1)
  {
  }

  /** However many sends share the cache, each refers to a block its own request just brought
      or to one younger than the TTL, and two sends that used different blocks are at least a
      TTL apart in what they saw. */
  lemma BlocksInUseAreRecent(ttl: nat, steps: seq<Step<BlockInfo>>, a: nat, b: nat) returns (i: nat, j: nat)
    requires var uses := Exec(Init<BlockInfo>(ttl), steps).uses; a < |uses| && b < |uses|
    ensures var s := Exec(Init<BlockInfo>(ttl), steps);
      && (s.uses[a].at == s.uses[a].entry.stamp || s.uses[a].at - s.uses[a].entry.stamp < ttl)
      && i < |s.fetches| && j < |s.fetches| && s.fetches[i] == s.uses[a].entry && s.fetches[j] == s.uses[b].entry
      && (i < j ==> s.uses[a].entry.stamp + ttl <= s.uses[b].entry.stamp)
  {
    EveryRun(ttl, steps);
    var s := Exec(Init<BlockInfo>(ttl), steps);
    assert Justified(s.uses[a], s.fetches, s.ttl) && Justified(s.uses[b], s.fetches, s.ttl);
    i :| 0 <= i < |s.fetches| && s.fetches[i] == s.uses[a].entry;
    j :| 0 <= j < |s.fetches| && s.fetches[j] == s.uses[b].entry;
    if i < j {
      FetchesAreRateLimited(ttl, steps, i, j);
      MulAtLeast(j - i, ttl);
    }
  }
}

/** `EnergyFiller` (crates/provider/src/fillers/mod.rs). */
module Energy {
  import opened Wrappers
  import opened Integers
  import opened ProviderTypes
  import opened TtlCache

  datatype OnEstimateFailure = Fail | UseFallback

  datatype EnergySettings = EnergySettings(
    marginPercent: U32,
    min: I64,
    max: I64,
    fallback: I64,
    onFailure: OnEstimateFailure,
    priceTtl: nat)
  {
    predicate Valid() { min <= max }

    /** `try_with_bounds`: the only way to change the bounds refuses inverted ones. */
    function TryWithBounds(lo: I64, hi: I64): (r: Result<EnergySettings, ProviderError>)
      ensures r.Ok? <==> lo <= hi
      ensures r.Ok? ==> r.value.Valid() && r.value == this.(min := lo, max := hi)
      ensures r.Err? ==> r.error == InvertedBounds(lo, hi)
    {
      if lo > hi then Err(InvertedBounds(lo, hi)) else Ok(this.(min := lo, max := hi))
    }
  }

  const DEFAULT_SETTINGS: EnergySettings := EnergySettings(20, 0, 1_000_000_000, 20_000_000, Fail, 300_000)

  /** Settings as the setters leave them: the bounds are in order. */
  type Settings = s: EnergySettings | s.Valid() witness DEFAULT_SETTINGS

  // ---- The arithmetic of `estimate` ----

  /** `i128::checked_mul`. */
  function CheckedMul(a: I128, b: I128): Option<I128>
  {
    if -I128_MAX - 1 <= a * b <= I128_MAX then Some(a * b) else None
  }

  function Clamp(x: int, lo: int, hi: int): int
    requires lo <= hi
  {
    if x < lo then lo else if x > hi then hi else x
  }

  function Limit(s: Settings, energy: I64, price: I64): Result<I64, ProviderError>
  {
    var scale := 100 + s.marginPercent;
    var product := if energy >= 0 && price >= 0 then CheckedMul(energy, price) else None;
    var sun := if product.Some? then CheckedMul(product.value, scale) else None;
    if sun.None? then Err(Malformed(energy, price))
    else
      var clamped: I64 := Clamp(sun.value / 100, s.min, s.max);
      if clamped < 0 then Err(NegativeAmount(clamped)) else Ok(clamped)
  }

  function Cost(s: Settings, energy: int, price: int): int { energy * price * (100 + s.marginPercent) }

  /** The first product of two 64-bit numbers never overflows 128 bits. */
  lemma FirstProductFits(energy: I64, price: I64)
    requires energy >= 0 && price >= 0
    ensures 0 <= energy * price <= I64_MAX * I64_MAX
  {
    MulMonotone(energy, I64_MAX, price);
    MulMonotone(price, I64_MAX, I64_MAX);
  }

  lemma CostMonotone(s: Settings, e1: I64, p1: I64, e2: I64, p2: I64)
    requires 0 <= e1 <= e2 && 0 <= p1 <= p2
    ensures 0 <= Cost(s, e1, p1) <= Cost(s, e2, p2)
  {
    MulMonotone(e1, e2, p1);
    MulMonotone(p1, p2, e2);
    NonNegativeProduct(e1, p1);
    MulMonotone(e1 * p1, e2 * p2, 100 + s.marginPercent);
    NonNegativeProduct(e1 * p1, 100 + s.marginPercent);
  }

  /** Exactly when there is no limit, and exactly what it is otherwise. */
  lemma LimitIsExact(s: Settings, energy: I64, price: I64)
    ensures Limit(s, energy, price).Err? <==>
      energy < 0 || price < 0 || Cost(s, energy, price) > I128_MAX || s.max < 0
    ensures Limit(s, energy, price).Ok? ==>
      Limit(s, energy, price).value == Max(s.min, Min(s.max, Cost(s, energy, price) / 100))
  {
    if energy >= 0 && price >= 0 {
      FirstProductFits(energy, price);
      CostMonotone(s, 0, 0, energy, price);
    }
  }

  /** A call that needs more, a higher price or a bigger margin never gets a lower limit. */
  lemma LimitIsMonotone(s1: Settings, s2: Settings, e1: I64, p1: I64, e2: I64, p2: I64)
    requires s2 == s1.(marginPercent := s2.marginPercent) && s1.marginPercent <= s2.marginPercent
    requires e1 <= e2 && p1 <= p2
    requires Limit(s1, e1, p1).Ok? && Limit(s2, e2, p2).Ok?
    ensures Limit(s1, e1, p1).value <= Limit(s2, e2, p2).value
  {
    LimitIsExact(s1, e1, p1);
    LimitIsExact(s2, e2, p2);
    CostMonotone(s1, e1, p1, e2, p2);
    CostGrowsWithMargin(s1, s2, e2, p2);
  }

  lemma CostGrowsWithMargin(s1: Settings, s2: Settings, e: I64, p: I64)
    requires s1.marginPercent <= s2.marginPercent && e >= 0 && p >= 0
    ensures Cost(s1, e, p) <= Cost(s2, e, p)
  {
    var n := e * p;
    NonNegativeProduct(e, p);
    MulMonotone(100 + s1.marginPercent, 100 + s2.marginPercent, n);
    assert Cost(s1, e, p) == (100 + s1.marginPercent) * n;
    assert Cost(s2, e, p) == (100 + s2.marginPercent) * n;
  }

  /** The limit pays for the estimate whenever the ceiling allows it, and never leaves the bounds. */
  lemma LimitCoversTheCall(s: Settings, energy: I64, price: I64)
    requires Limit(s, energy, price).Ok?
    ensures s.min <= Limit(s, energy, price).value <= s.max
    ensures energy * price <= s.max ==> Limit(s, energy, price).value >= energy * price
  {
    LimitIsExact(s, energy, price);
    FirstProductFits(energy, price);
    var n := energy * price;
    assert Cost(s, energy, price) == n * 100 + n * s.marginPercent;
    NonNegativeProduct(n, s.marginPercent);
  }

  // ---- One fill, alone ----

  /** `call_contract`'s answer. */
  datatype CallResult = CallResult(energyUsed: I64, revertReason: Option<string>)

  /** What the node would answer to the requests of one fill. */
  datatype NodeAnswers = NodeAnswers(
    estimate: Result<I64, ProviderError>,
    call: Result<CallResult, ProviderError>,
    price: Result<I64, ProviderError>,
    checkedAt: nat,
    repliedAt: nat)

  function EnergyFromCall(call: Result<CallResult, ProviderError>): Result<I64, ProviderError>
  {
    match call
    case Err(e) => Err(e)
    case Ok(result) =>
      if result.revertReason.Some? then Err(Reverted(result.revertReason.value)) else Ok(result.energyUsed)
  }

  /** `energy_needed`: the latch afterwards, and the energy. */
  function EnergyNeeded(refused: bool, node: NodeAnswers): (bool, Result<I64, ProviderError>)
  {
    if !refused && node.estimate.Ok? then (refused, Ok(node.estimate.value))
    else (refused || node.estimate.error.Unsupported?, EnergyFromCall(node.call))
  }

  datatype Shared = Shared(price: Option<Entry<I64>>, refused: bool)

  function Estimate(s: Settings, shared: Shared, node: NodeAnswers): (Shared, Result<I64, ProviderError>)
  {
    var (refused, energy) := EnergyNeeded(shared.refused, node);
    if energy.Err? then (Shared(shared.price, refused), Err(energy.error))
    else
      var (cache, price) := Serve(shared.price, s.priceTtl, node.checkedAt, node.price, node.repliedAt);
      (Shared(cache, refused), if price.Err? then Err(price.error) else Limit(s, energy.value, price.value))
  }

  function FillEnergy(s: Settings, shared: Shared, tx: TransactionRequest, node: NodeAnswers)
    : (Shared, Result<TransactionRequest, ProviderError>)
  {
    if tx.feeLimit.Some? || !tx.NeedsFeeLimit() then (shared, Ok(tx))
    else if !tx.contract.value.TriggerSmartContract? then (shared, Ok(tx.(feeLimit := Some(s.fallback))))
    else
      var (shared', limit) := Estimate(s, shared, node);
      (shared',
       if limit.Ok? then Ok(tx.(feeLimit := Some(limit.value)))
       else if s.onFailure.Fail? then Err(limit.error)
       else Ok(tx.(feeLimit := Some(s.fallback))))
  }

  /** The energy this fill learns: the node's estimate while no refusal is on record, or else what
      a read-only call that did not revert has used. */
  ghost predicate EnergyIs(refused: bool, node: NodeAnswers, energy: I64)
  {
    || (!refused && node.estimate == Ok(energy))
    || ((refused || node.estimate.Err?) && node.call == Ok(CallResult(energy, None)))
  }

  /** The price it learns: the cached one while that is fresh, else the node's. */
  ghost predicate PriceIs(cache: Option<Entry<I64>>, ttl: nat, node: NodeAnswers, price: I64)
  {
    if cache.Some? && node.checkedAt - cache.value.stamp < ttl then price == cache.value.value
    else node.price == Ok(price)
  }

  lemma EnergyNeededMeaning(refused: bool, node: NodeAnswers, energy: I64)
    ensures EnergyNeeded(refused, node).1 == Ok(energy) <==> EnergyIs(refused, node, energy)
    ensures EnergyNeeded(refused, node).0 <==> refused || (node.estimate.Err? && node.estimate.error.Unsupported?)
  {
  }

  /** When an estimate of a call succeeds: a transient failure of the node's estimate, or a
      refusal of it, is no obstacle while the read-only call goes through. */
  lemma EstimateSucceedsExactlyWhen(s: Settings, shared: Shared, node: NodeAnswers)
    ensures Estimate(s, shared, node).1.Ok? <==>
      exists energy: I64, price: I64 ::
        && EnergyIs(shared.refused, node, energy) && PriceIs(shared.price, s.priceTtl, node, price)
        && Limit(s, energy, price).Ok?
    ensures forall energy: I64, price: I64 ::
      EnergyIs(shared.refused, node, energy) && PriceIs(shared.price, s.priceTtl, node, price) ==>
        Estimate(s, shared, node).1 == Limit(s, energy, price)
  {
    var energy := EnergyNeeded(shared.refused, node).1;
    var price := Serve(shared.price, s.priceTtl, node.checkedAt, node.price, node.repliedAt).1;
    if energy.Ok? && price.Ok? {
      assert EnergyIs(shared.refused, node, energy.value) && PriceIs(shared.price, s.priceTtl, node, price.value);
    }
  }

  /** When a fill succeeds, and with what: a request that has or needs no limit is left alone, a
      deployment gets the fallback; a call gets the estimate, or under `UseFallback` the
      fallback, and fails exactly when the estimate does and the settings say `Fail`. */
  lemma FillOutcome(s: Settings, shared: Shared, tx: TransactionRequest, node: NodeAnswers)
    ensures var r := FillEnergy(s, shared, tx, node).1;
      var estimate := Estimate(s, shared, node).1;
      if tx.feeLimit.Some? || tx.contract.None? || tx.contract.value.Native? then r == Ok(tx)
      else if tx.contract.value.CreateSmartContract? then r == Ok(tx.(feeLimit := Some(s.fallback)))
      else
        && (r.Err? <==> estimate.Err? && s.onFailure == Fail)
        && (r.Err? ==> r.error == estimate.error)
        && (r.Ok? ==> r.value == tx.(feeLimit := Some(if estimate.Ok? then estimate.value else s.fallback)))
  {
  }

  /** The flag shared by all clones: set once a node turns out not to offer `EstimateEnergy`. */
  class Latch {
    var set_: bool

    constructor ()
      ensures !set_
    {
      set_ := false;
    }
  }

  class EnergyFiller {
    const settings: Settings
    const price: Cell<I64>
    const nodeWillNotEstimate: Latch

    constructor (settings: Settings)
      ensures this.settings == settings
      ensures fresh(price) && fresh(nodeWillNotEstimate) && SharedState() == Shared(None, false)
    {
      this.settings := settings;
      price := new Cell();
      nodeWillNotEstimate := new Latch();
    }

    ghost function SharedState(): Shared
      reads price, nodeWillNotEstimate
    {
      Shared(price.entry, nodeWillNotEstimate.set_)
    }

    method EnergyPrice(node: NodeAnswers) returns (r: Result<I64, ProviderError>)
      modifies price
      ensures (price.entry, r) == Serve(old(price.entry), settings.priceTtl, node.checkedAt, node.price, node.repliedAt)
    {
      r := price.GetOrFetch(settings.priceTtl, node.checkedAt, node.price, node.repliedAt);
    }

    method EnergyNeededFor(node: NodeAnswers) returns (r: Result<I64, ProviderError>)
      modifies nodeWillNotEstimate
      ensures (nodeWillNotEstimate.set_, r) == EnergyNeeded(old(nodeWillNotEstimate.set_), node)
    {
      if !nodeWillNotEstimate.set_ {
        match node.estimate {
          case Ok(energy) => return Ok(energy);
          case Err(err) =>
            if err.Unsupported? {
              nodeWillNotEstimate.set_ := true;
            }
        }
      }
      if node.call.Err? {
        return Err(node.call.error);
      }
      if node.call.value.revertReason.Some? {
        return Err(Reverted(node.call.value.revertReason.value));
      }
      return Ok(node.call.value.energyUsed);
    }

    method Fill(tx: TransactionRequest, node: NodeAnswers) returns (r: Result<TransactionRequest, ProviderError>)
      modifies price, nodeWillNotEstimate
      ensures (SharedState(), r) == FillEnergy(settings, old(SharedState()), tx, node)
    {
      if tx.feeLimit.Some? || !tx.NeedsFeeLimit() {
        return Ok(tx);
      }
      if !tx.contract.value.TriggerSmartContract? {
        return Ok(tx.(feeLimit := Some(settings.fallback)));
      }
      var limit: Result<I64, ProviderError>;
      var energy := EnergyNeededFor(node);
      if energy.Err? {
        limit := Err(energy.error);
      } else {
        var p := EnergyPrice(node);
        limit := if p.Err? then Err(p.error) else Limit(settings, energy.value, p.value);
      }
      if limit.Err? {
        if settings.onFailure.Fail? {
          return Err(limit.error);
        }
        return Ok(tx.(feeLimit := Some(settings.fallback)));
      }
      return Ok(tx.(feeLimit := Some(limit.value)));
    }
  }

  /** Under `Fail`, a call's limit is never a guess: it prices an energy answer of this very
      fill - an estimate, asked for only while no refusal was on record, or a read-only call
      that did not revert - at a price that is fresh from the cache or from the node. */
  lemma NoGuessedLimit(s: Settings, shared: Shared, tx: TransactionRequest, node: NodeAnswers)
    returns (energy: I64, price: I64)
    requires s.onFailure.Fail? && tx.feeLimit.None?
    requires tx.contract.Some? && tx.contract.value.TriggerSmartContract?
    requires FillEnergy(s, shared, tx, node).1.Ok?
    ensures Limit(s, energy, price).Ok?
    ensures FillEnergy(s, shared, tx, node).1.value == tx.(feeLimit := Some(Limit(s, energy, price).value))
    ensures (!shared.refused && node.estimate == Ok(energy))
         || ((shared.refused || node.estimate.Err?) && node.call == Ok(CallResult(energy, None)))
    ensures if Fresh(shared.price, node.checkedAt, s.priceTtl) then price == shared.price.value.value
            else node.price == Ok(price)
    ensures FillEnergy(s, shared, tx, node).0.refused <==>
      shared.refused || (node.estimate.Err? && node.estimate.error.Unsupported?)
  {
    energy := EnergyNeeded(shared.refused, node).1.value;
    price := Serve(shared.price, s.priceTtl, node.checkedAt, node.price, node.repliedAt).1.value;
  }
}
