/** The filler tree and the provider around it (`JoinFill` and `HasSigner` in
    crates/provider/src/fillers/mod.rs, `FilledProvider` in
    crates/provider/src/provider/builder.rs). */
module FillerTree {
  import opened Wrappers
  import opened Integers
  import opened ChainTypes
  import opened ProviderTypes
  import T = Tapos
  import E = Energy
  import C = TtlCache

  datatype Signature = Signature(key: Address, hash: B256)

  /** A wallet may hold several credentials, and any of them may fail to sign. */
  datatype Wallet = Wallet(
    defaultKey: Address,
    strict: bool,
    holds: Address -> bool,
    signHash: (Address, B256) -> Result<Signature, ProviderError>)
  {
    /** The owner's key if the wallet holds it or is strict, else the default credential. */
    function KeyFor(key: Option<Address>): Address
    {
      if key.Some? && (strict || holds(key.value)) then key.value else defaultKey
    }
  }

  /** The fillers of the crate, and any written downstream. What a downstream one does may
      depend on the moment it is called - the number of halves run before it - and so on state
      it keeps and on whatever the provider answers it; it may carry a wallet. */
  datatype Leaf =
    | Tapos(expiryMs: nat)
    | FeeLimit(default: I64)
    | Energy(settings: E.Settings)
    | Signer(wallet: Wallet)
    | Custom(sync: (TransactionRequest, nat) -> TransactionRequest,
             async_: (TransactionRequest, nat) -> Result<TransactionRequest, ProviderError>,
             carried: Option<Wallet>)
  {
    function WalletOf(): Option<Wallet>
    {
      match this
      case Signer(w) => Some(w)
      case Custom(_, _, w) => w
      case _ => None
    }
  }

  datatype Filler = Identity | One(leaf: Leaf) | Join(left: Filler, right: Filler)

  /** The fillers under a tree, left to right. */
  function Leaves(f: Filler): seq<Leaf>
  {
    match f
    case Identity => []
    case One(leaf) => [leaf]
    case Join(l, r) => Leaves(l) + Leaves(r)
  }

  datatype Call = Sync(leaf: Leaf) | Async(leaf: Leaf)

  /** A filler consulting the chain for a block, or for an energy limit under its settings,
      through its cache or the node. */
  datatype Consult = ForBlock | ForLimit(settings: E.Settings)

  /** What the n-th consultation finds: the block served, or the cache and latch of the asking
      energy filler and what the node would answer it. */
  datatype Chain = Chain(
    blockAt: nat -> Result<BlockInfo, ProviderError>,
    sharedAt: nat -> E.Shared,
    answersAt: nat -> E.NodeAnswers)
  {
    /** The estimate of an energy filler with these settings. */
    function LimitAt(n: nat, s: E.Settings): Result<I64, ProviderError>
    {
      E.Estimate(s, sharedAt(n), answersAt(n)).1
    }
  }

  /** A request on its way through the fillers. */
  datatype Flow = Flow(tx: TransactionRequest, calls: seq<Call>, consults: seq<Consult>)
  {
    function Called(c: Call): Flow { this.(calls := calls + [c]) }

    function Consulted(c: Consult): Flow { this.(consults := consults + [c]) }
  }

  datatype Filling = Filled(flow: Flow) | Aborted(flow: Flow, error: ProviderError)

  function LeafSync(leaf: Leaf, flow: Flow): Flow
  {
    var tx := flow.tx;
    var tx' :=
      match leaf
      case FeeLimit(default) => if tx.feeLimit.None? && tx.NeedsFeeLimit() then tx.(feeLimit := Some(default)) else tx
      case Custom(sync, _, _) => sync(tx, |flow.calls|)
      case _ => tx;
    flow.(tx := tx').Called(Sync(leaf))
  }

  function LeafFill(chain: Chain, leaf: Leaf, flow: Flow): Filling
  {
    var tx, n, here := flow.tx, |flow.consults|, flow.Called(Async(leaf));
    match leaf
    case Tapos(expiryMs) =>
      if tx.refBlockBytes.Some? then Filled(here)
      else
        var there := here.Consulted(ForBlock);
        (match chain.blockAt(n)
         case Ok(block) => Filled(there.(tx := T.Filled(tx, block, expiryMs)))
         case Err(e) => Aborted(there, e))
    case Energy(s) =>
      if tx.feeLimit.Some? || !tx.NeedsFeeLimit() then Filled(here)
      else if !tx.contract.value.TriggerSmartContract? then Filled(here.(tx := tx.(feeLimit := Some(s.fallback))))
      else
        var there := here.Consulted(ForLimit(s));
        (match chain.LimitAt(n, s)
         case Ok(limit) => Filled(there.(tx := tx.(feeLimit := Some(limit))))
         case Err(e) =>
           if s.onFailure.Fail? then Aborted(there, e)
           else Filled(there.(tx := tx.(feeLimit := Some(s.fallback)))))
    case Custom(_, async_, _) =>
      (match async_(tx, |flow.calls|)
       case Ok(tx') => Filled(here.(tx := tx'))
       case Err(e) => Aborted(here, e))
    case _ => Filled(here)
  }

  /** The energy leaf is the energy filler. */
  lemma EnergyLeafIsTheFiller(chain: Chain, s: E.Settings, flow: Flow)
    ensures var n := |flow.consults|;
      var r := E.FillEnergy(s, chain.sharedAt(n), flow.tx, chain.answersAt(n)).1;
      match LeafFill(chain, Energy(s), flow)
      case Filled(end) => r == Ok(end.tx)
      case Aborted(_, e) => r == Err(e)
  {
  }

  /** The TAPOS leaf is the TAPOS filler, with what its cache serves as the chain's answer. */
  lemma TaposLeafIsTheFiller(chain: Chain, flow: Flow, cache: Option<C.Entry<BlockInfo>>, ttl: nat, expiryMs: nat,
      node: T.BlockAnswer)
    requires chain.blockAt(|flow.consults|) == C.Serve(cache, ttl, node.checkedAt, node.reply, node.repliedAt).1
    ensures var r := T.FillTapos(flow.tx, cache, ttl, expiryMs, node).1;
      match LeafFill(chain, Tapos(expiryMs), flow)
      case Filled(end) => r == Ok(end.tx)
      case Aborted(_, e) => r == Err(e)
  {
  }

  /** What each leaf does to a request when it has its turn: in the sync half only a fee-limit
      filler and a downstream one change it, in the async half only the others; a downstream
      filler's request is handed on and its error reported as it is. */
  lemma LeafMeaning(chain: Chain, leaf: Leaf, flow: Flow)
    ensures LeafSync(leaf, flow).calls == flow.calls + [Sync(leaf)]
    ensures LeafFill(chain, leaf, flow).flow.calls == flow.calls + [Async(leaf)]
    ensures !leaf.FeeLimit? && !leaf.Custom? ==> LeafSync(leaf, flow).tx == flow.tx
    ensures leaf.Custom? ==> LeafSync(leaf, flow).tx == leaf.sync(flow.tx, |flow.calls|)
    ensures leaf.FeeLimit? || leaf.Signer? ==>
      LeafFill(chain, leaf, flow).Filled? && LeafFill(chain, leaf, flow).flow.tx == flow.tx
    ensures leaf.Custom? ==>
      match LeafFill(chain, leaf, flow)
      case Filled(end) => leaf.async_(flow.tx, |flow.calls|) == Ok(end.tx)
      case Aborted(_, e) => leaf.async_(flow.tx, |flow.calls|) == Err(e)
  {
  }

  // ---- The tree ----

  function FillSync(f: Filler, flow: Flow): Flow
  {
    match f
    case Identity => flow
    case One(leaf) => LeafSync(leaf, flow)
    case Join(l, r) => FillSync(r, FillSync(l, flow))
  }

  function Fill(chain: Chain, f: Filler, flow: Flow): Filling
  {
    match f
    case Identity => Filled(flow)
    case One(leaf) => LeafFill(chain, leaf, flow)
    case Join(l, r) =>
      var first := Fill(chain, l, flow);
      if first.Aborted? then first else Fill(chain, r, first.flow)
  }

  // ---- The list it amounts to ----

  function SyncAll(leaves: seq<Leaf>, flow: Flow): Flow
  {
    if leaves == [] then flow else SyncAll(leaves[1..], LeafSync(leaves[0], flow))
  }

  function FillAll(chain: Chain, leaves: seq<Leaf>, flow: Flow): Filling
  {
    if leaves == [] then Filled(flow)
    else
      var first := LeafFill(chain, leaves[0], flow);
      if first.Aborted? then first else FillAll(chain, leaves[1..], first.flow)
  }

  lemma {:induction false} SyncAllConcat(a: seq<Leaf>, b: seq<Leaf>, flow: Flow)
    ensures SyncAll(a + b, flow) == SyncAll(b, SyncAll(a, flow))
  {
    if a == [] {
      assert a + b == b;
    } else {
      assert (a + b)[1..] == a[1..] + b;
      SyncAllConcat(a[1..], b, LeafSync(a[0], flow));
    }
  }

  lemma {:induction false} FillAllConcat(chain: Chain, a: seq<Leaf>, b: seq<Leaf>, flow: Flow)
    ensures FillAll(chain, a + b, flow) ==
      var first := FillAll(chain, a, flow); if first.Aborted? then first else FillAll(chain, b, first.flow)
  {
    if a == [] {
      assert a + b == b;
    } else {
      assert (a + b)[1..] == a[1..] + b;
      var first := LeafFill(chain, a[0], flow);
      if first.Filled? { FillAllConcat(chain, a[1..], b, first.flow); }
    }
  }

  /** A tree acts as the list of its leaves: the nesting never matters. */
  lemma {:induction false} TreeIsItsLeaves(chain: Chain, f: Filler, flow: Flow)
    ensures FillSync(f, flow) == SyncAll(Leaves(f), flow)
    ensures Fill(chain, f, flow) == FillAll(chain, Leaves(f), flow)
  {
    match f
    case Identity =>
    case One(leaf) =>
    case Join(l, r) =>
      TreeIsItsLeaves(chain, l, flow);
      TreeIsItsLeaves(chain, r, FillSync(l, flow));
      TreeIsItsLeaves(chain, r, Fill(chain, l, flow).flow);
      SyncAllConcat(Leaves(l), Leaves(r), flow);
      FillAllConcat(chain, Leaves(l), Leaves(r), flow);
  }

  // ---- Building a request ----

  function Start(req: TransactionRequest): Flow { Flow(req, [], []) }

  /** The request handed to the provider below: a sync pass, an async pass, a sync pass. */
  function Build(chain: Chain, leaves: seq<Leaf>, req: TransactionRequest): Filling
  {
    var middle := FillAll(chain, leaves, SyncAll(leaves, Start(req)));
    if middle.Aborted? then middle else Filled(SyncAll(leaves, middle.flow))
  }

  /** `FilledProvider::build_transaction`, up to the call of the inner provider. What it does
      is determined by the leaves. */
  method BuildRequest(chain: Chain, filler: Filler, req: TransactionRequest) returns (r: Filling)
    ensures r == Build(chain, Leaves(filler), req)
  {
    var flow := Start(req);
    TreeIsItsLeaves(chain, filler, flow);
    flow := FillSync(filler, flow);
    TreeIsItsLeaves(chain, filler, flow);
    var filled := Fill(chain, filler, flow);
    if filled.Aborted? {
      return filled;
    }
    flow := filled.flow;
    TreeIsItsLeaves(chain, filler, flow);
    flow := FillSync(filler, flow);
    return Filled(flow);
  }

  /** Joining with the identity changes nothing, on either side. */
  lemma IdentityIsAUnit(chain: Chain, f: Filler, flow: Flow)
    ensures FillSync(Join(Identity, f), flow) == FillSync(f, flow) == FillSync(Join(f, Identity), flow)
    ensures Fill(chain, Join(Identity, f), flow) == Fill(chain, f, flow) == Fill(chain, Join(f, Identity), flow)
  {
  }

  /** Nor does re-nesting. */
  lemma NestingIsIrrelevant(chain: Chain, f: Filler, g: Filler, h: Filler, flow: Flow)
    ensures FillSync(Join(Join(f, g), h), flow) == FillSync(Join(f, Join(g, h)), flow)
    ensures Fill(chain, Join(Join(f, g), h), flow) == Fill(chain, Join(f, Join(g, h)), flow)
  {
    var left := Fill(chain, f, flow);
    if left.Filled? {
      assert Fill(chain, Join(g, h), left.flow) ==
        var second := Fill(chain, g, left.flow); if second.Aborted? then second else Fill(chain, h, second.flow);
    }
  }

  function Syncs(leaves: seq<Leaf>): seq<Call> { seq(|leaves|, i requires 0 <= i < |leaves| => Sync(leaves[i])) }

  function Asyncs(leaves: seq<Leaf>): seq<Call> { seq(|leaves|, i requires 0 <= i < |leaves| => Async(leaves[i])) }

  lemma {:induction false} SyncAllCalls(leaves: seq<Leaf>, flow: Flow)
    ensures SyncAll(leaves, flow).calls == flow.calls + Syncs(leaves)
    ensures SyncAll(leaves, flow).consults == flow.consults
  {
    if leaves != [] {
      SyncAllCalls(leaves[1..], LeafSync(leaves[0], flow));
      assert Syncs(leaves) == [Sync(leaves[0])] + Syncs(leaves[1..]);
    }
  }

  lemma {:induction false} FillAllCalls(chain: Chain, leaves: seq<Leaf>, flow: Flow) returns (k: nat)
    ensures k <= |leaves|
    ensures FillAll(chain, leaves, flow).flow.calls == flow.calls + Asyncs(leaves[..k])
    ensures FillAll(chain, leaves, flow).Filled? ==> k == |leaves|
    ensures FillAll(chain, leaves, flow).Aborted? ==> k > 0
  {
    k := 0;
    if leaves != [] {
      var first := LeafFill(chain, leaves[0], flow);
      if first.Filled? { k := FillAllCalls(chain, leaves[1..], first.flow); }
      k := k + 1;
      assert leaves[..k] == [leaves[0]] + leaves[1..][..k - 1];
      assert Asyncs(leaves[..k]) == [Async(leaves[0])] + Asyncs(leaves[1..][..k - 1]);
    }
  }

  /** However the tree is nested, a successful build calls every leaf's sync half, then every
      async half, then every sync half again, each once and in leaf order; a failed one stops
      right after the async half that failed. */
  lemma BuildRunsEachLeafInOrder(chain: Chain, leaves: seq<Leaf>, req: TransactionRequest) returns (k: nat)
    ensures Build(chain, leaves, req).Filled? ==>
      Build(chain, leaves, req).flow.calls == Syncs(leaves) + Asyncs(leaves) + Syncs(leaves)
    ensures Build(chain, leaves, req).Aborted? ==>
      0 < k <= |leaves| && Build(chain, leaves, req).flow.calls == Syncs(leaves) + Asyncs(leaves[..k])
  {
    var first := SyncAll(leaves, Start(req));
    SyncAllCalls(leaves, Start(req));
    assert [] + Syncs(leaves) == Syncs(leaves);
    k := FillAllCalls(chain, leaves, first);
    assert leaves[..|leaves|] == leaves;
    SyncAllCalls(leaves, FillAll(chain, leaves, first).flow);
  }

  // ---- Which fee limit wins ----

  predicate BuiltIn(leaves: seq<Leaf>) { forall i :: 0 <= i < |leaves| ==> !leaves[i].Custom? }

  function LeftmostFeeLimit(leaves: seq<Leaf>): Option<I64>
  {
    if leaves == [] then None
    else if leaves[0].FeeLimit? then Some(leaves[0].default)
    else LeftmostFeeLimit(leaves[1..])
  }

  function LeftmostEnergy(leaves: seq<Leaf>): Option<E.Settings>
  {
    if leaves == [] then None
    else if leaves[0].Energy? then Some(leaves[0].settings)
    else LeftmostEnergy(leaves[1..])
  }

  function Or<A>(a: Option<A>, b: Option<A>): Option<A> { if a.Some? then a else b }

  lemma {:induction false} SyncAllFee(leaves: seq<Leaf>, flow: Flow)
    requires BuiltIn(leaves)
    ensures var tx := SyncAll(leaves, flow).tx;
      tx == flow.tx.(feeLimit :=
        if flow.tx.NeedsFeeLimit() then Or(flow.tx.feeLimit, LeftmostFeeLimit(leaves)) else flow.tx.feeLimit)
  {
    if leaves != [] {
      SyncAllFee(leaves[1..], LeafSync(leaves[0], flow));
    }
  }

  /** How often energy limits were asked for. */
  function Limits(consults: seq<Consult>): nat
  {
    if consults == [] then 0
    else Limits(consults[..|consults| - 1]) + (if consults[|consults| - 1].ForLimit? then 1 else 0)
  }

  /** The limit an energy filler gives this operation on the given answer. */
  function EnergyLimit(s: E.Settings, op: Operation, answer: Result<I64, ProviderError>): I64
  {
    if op.TriggerSmartContract? && answer.Ok? then answer.value else s.fallback
  }

  /** The `n`-th consultation was an energy filler with these settings asking for a limit. */
  ghost predicate Asked(consults: seq<Consult>, n: nat, s: E.Settings)
  {
    n < |consults| && consults[n] == ForLimit(s)
  }

  lemma {:induction false} ConsultsGrow(chain: Chain, leaves: seq<Leaf>, flow: Flow)
    ensures flow.consults <= FillAll(chain, leaves, flow).flow.consults
  {
    if leaves != [] {
      var first := LeafFill(chain, leaves[0], flow);
      assert flow.consults <= first.flow.consults;
      if first.Filled? { ConsultsGrow(chain, leaves[1..], first.flow); }
    }
  }

  lemma ConsultFacts(flow: Flow, c: Consult)
    ensures Limits(flow.Consulted(c).consults) == Limits(flow.consults) + (if c.ForLimit? then 1 else 0)
  {
    assert flow.Consulted(c).consults[..|flow.consults|] == flow.consults;
  }

  /** The fee limit from here to `end` when the first energy filler on the way is `energy`: it
      stays unless it is open, needed and there is one; then that filler settles it, asking once
      if the operation is a call. */
  ghost predicate FeeSettled(chain: Chain, energy: Option<E.Settings>, flow: Flow, end: Flow, n: nat)
  {
    && end.tx.contract == flow.tx.contract
    && if flow.tx.feeLimit.Some? || !flow.tx.NeedsFeeLimit() || energy.None?
       then end.tx.feeLimit == flow.tx.feeLimit && Limits(end.consults) == Limits(flow.consults)
       else
         var op, s := flow.tx.contract.value, energy.value;
         && end.tx.feeLimit == Some(EnergyLimit(s, op, chain.LimitAt(n, s)))
         && Limits(end.consults) == Limits(flow.consults) + (if op.TriggerSmartContract? then 1 else 0)
         && (op.TriggerSmartContract? ==> Asked(end.consults, n, s))
         && (op.TriggerSmartContract? && chain.LimitAt(n, s).Err? ==> s.onFailure.UseFallback?)
  }

  lemma LeafFee(chain: Chain, leaf: Leaf, flow: Flow)
    requires !leaf.Custom? && LeafFill(chain, leaf, flow).Filled?
    ensures FeeSettled(chain, LeftmostEnergy([leaf]), flow, LeafFill(chain, leaf, flow).flow, |flow.consults|)
  {
    assert [leaf][1..] == [];
    if leaf.Energy? {
      EnergyLeafFee(chain, leaf.settings, flow);
    } else {
      ConsultFacts(flow.Called(Async(leaf)), ForBlock);
    }
  }

  lemma EnergyLeafFee(chain: Chain, s: E.Settings, flow: Flow)
    requires LeafFill(chain, Energy(s), flow).Filled?
    ensures FeeSettled(chain, Some(s), flow, LeafFill(chain, Energy(s), flow).flow, |flow.consults|)
  {
    var n, end := |flow.consults|, LeafFill(chain, Energy(s), flow).flow;
    if flow.tx.feeLimit.None? && flow.tx.NeedsFeeLimit() && flow.tx.contract.value.TriggerSmartContract? {
      ConsultFacts(flow.Called(Async(Energy(s))), ForLimit(s));
      assert end.consults == flow.consults + [ForLimit(s)];
      assert end.consults[n] == ForLimit(s);
    }
  }

  /** What the async pass does to the fee limit. */
  lemma {:induction false} FillAllFee(chain: Chain, leaves: seq<Leaf>, flow: Flow) returns (n: nat)
    requires BuiltIn(leaves) && FillAll(chain, leaves, flow).Filled?
    ensures FeeSettled(chain, LeftmostEnergy(leaves), flow, FillAll(chain, leaves, flow).flow, n)
  {
    n := |flow.consults|;
    if leaves != [] {
      var first := LeafFill(chain, leaves[0], flow).flow;
      LeafFee(chain, leaves[0], flow);
      assert [leaves[0]][1..] == [];
      ConsultsGrow(chain, leaves[1..], first);
      var m := FillAllFee(chain, leaves[1..], first);
      if !leaves[0].Energy? {
        n := m;
      }
    }
  }

  /** Precedence over any tree of the crate's own fillers, for an operation that needs a
      limit: the request's own; else the leftmost `FeeLimitFiller` default, wherever it sits;
      else the leftmost `EnergyFiller`, whose own settings price the call. In the first two cases
      no energy filler consults the chain, and otherwise at most that one does, once. */
  lemma FeeLimitPrecedence(chain: Chain, leaves: seq<Leaf>, req: TransactionRequest) returns (n: nat)
    requires BuiltIn(leaves) && Build(chain, leaves, req).Filled?
    requires req.contract.Some? && (req.contract.value.TriggerSmartContract? || req.contract.value.CreateSmartContract?)
    ensures var end := Build(chain, leaves, req).flow;
      var explicit := Or(req.feeLimit, LeftmostFeeLimit(leaves));
      var op := req.contract.value;
      if explicit.Some? then end.tx.feeLimit == explicit && Limits(end.consults) == 0
      else if LeftmostEnergy(leaves).None? then end.tx.feeLimit == None && Limits(end.consults) == 0
      else
        var s := LeftmostEnergy(leaves).value;
        && end.tx.feeLimit == Some(EnergyLimit(s, op, chain.LimitAt(n, s)))
        && Limits(end.consults) == (if op.TriggerSmartContract? then 1 else 0)
        && (op.TriggerSmartContract? ==> Asked(end.consults, n, s))
        && (op.TriggerSmartContract? && chain.LimitAt(n, s).Err? ==> s.onFailure.UseFallback?)
  {
    SyncAllFee(leaves, Start(req));
    SyncAllCalls(leaves, Start(req));
    var first := SyncAll(leaves, Start(req));
    n := FillAllFee(chain, leaves, first);
    var middle := FillAll(chain, leaves, first).flow;
    SyncAllFee(leaves, middle);
    SyncAllCalls(leaves, middle);
  }

  /** An operation that needs no limit keeps the one it came with, and nobody asks. */
  lemma NoLimitWhereNoneIsNeeded(chain: Chain, leaves: seq<Leaf>, req: TransactionRequest)
    requires BuiltIn(leaves) && Build(chain, leaves, req).Filled?
    requires req.contract.Some? ==> req.contract.value.Native?
    ensures var end := Build(chain, leaves, req).flow;
      end.tx.feeLimit == req.feeLimit && Limits(end.consults) == 0
  {
    SyncAllFee(leaves, Start(req));
    SyncAllCalls(leaves, Start(req));
    var first := SyncAll(leaves, Start(req));
    var n := FillAllFee(chain, leaves, first);
    SyncAllFee(leaves, FillAll(chain, leaves, first).flow);
    SyncAllCalls(leaves, FillAll(chain, leaves, first).flow);
  }

  // ---- Who signs ----

  function SignerAddress(f: Filler): Option<Address>
  {
    match f
    case One(leaf) => if leaf.WalletOf().Some? then Some(leaf.WalletOf().value.defaultKey) else None
    case Join(l, r) => Or(SignerAddress(r), SignerAddress(l))
    case _ => None
  }

  function SignWith(f: Filler, key: Option<Address>, hash: B256): Option<Result<Signature, ProviderError>>
  {
    match f
    case One(leaf) =>
      if leaf.WalletOf().None? then None
      else
        var w := leaf.WalletOf().value;
        Some(w.signHash(w.KeyFor(key), hash))
    case Join(l, r) => Or(SignWith(r, key, hash), SignWith(l, key, hash))
    case _ => None
  }

  function RightmostWallet(leaves: seq<Leaf>): Option<Wallet>
  {
    if leaves == [] then None
    else if leaves[|leaves| - 1].WalletOf().Some? then leaves[|leaves| - 1].WalletOf()
    else RightmostWallet(leaves[..|leaves| - 1])
  }

  lemma {:induction false} RightmostConcat(a: seq<Leaf>, b: seq<Leaf>)
    ensures RightmostWallet(a + b) == Or(RightmostWallet(b), RightmostWallet(a))
  {
    if b == [] {
      assert a + b == a;
    } else {
      assert (a + b)[..|a + b| - 1] == a + b[..|b| - 1];
      RightmostConcat(a, b[..|b| - 1]);
    }
  }

  /** The rightmost wallet signs, even when that means an error; without one nobody does. */
  lemma {:induction false} RightmostWalletSigns(f: Filler, key: Option<Address>, hash: B256)
    ensures var w := RightmostWallet(Leaves(f));
      && SignerAddress(f) == (if w.None? then None else Some(w.value.defaultKey))
      && SignWith(f, key, hash) == (if w.None? then None else Some(w.value.signHash(w.value.KeyFor(key), hash)))
  {
    match f
    case Identity =>
    case One(leaf) =>
      assert [leaf][..0] == [];
    case Join(l, r) =>
      RightmostWalletSigns(l, key, hash);
      RightmostWalletSigns(r, key, hash);
      RightmostConcat(Leaves(l), Leaves(r));
  }

  // ---- Sending ----

  /** TRON's prefix and twenty zero bytes. */
  function ZeroAddress(): (a: Address)
    ensures |a| == 21 && a[0] == 0x41 && forall i :: 1 <= i < 21 ==> a[i] == 0
  {
    [0x41] + seq(20, _ => 0)
  }

  datatype Sent = Sent(hash: B256, signature: Signature)

  /** The provider below: it builds the filled request into a transaction id, and broadcasts. */
  datatype Inner = Inner(
    build: TransactionRequest -> Result<B256, ProviderError>,
    broadcast: (B256, Signature) -> Result<(), ProviderError>)

  /** What sending amounts to: the result, and what was handed to the network. */
  function Send(chain: Chain, inner: Inner, leaves: seq<Leaf>, req: TransactionRequest)
    : (Result<Sent, ProviderError>, seq<Sent>)
  {
    var owner := if req.contract.Some? then Some(req.contract.value.owner) else None;
    if owner == Some(ZeroAddress()) then (Err(MissingField("owner_address")), [])
    else
      match Build(chain, leaves, req)
      case Aborted(_, e) => (Err(e), [])
      case Filled(flow) =>
        match inner.build(flow.tx)
        case Err(e) => (Err(e), [])
        case Ok(hash) =>
          if RightmostWallet(leaves).None? then (Err(NoSigner), [])
          else
            var w := RightmostWallet(leaves).value;
            match w.signHash(w.KeyFor(owner), hash)
            case Err(e) => (Err(e), [])
            case Ok(signature) =>
              var sent := Sent(hash, signature);
              (match inner.broadcast(hash, signature)
               case Ok(_) => Ok(sent)
               case Err(e) => Err(e), [sent])
  }

  predicate NoOwner(req: TransactionRequest) { req.contract.Some? && req.contract.value.owner == ZeroAddress() }

  /** Every step of sending succeeds and this is what it sends: there is an owner, the fillers
      fill, the provider below builds the hash from the filled request, the rightmost wallet
      signs it - with the owner's key if it is strict or holds that key, else with its default
      one - and the node accepts it. */
  ghost predicate Sends(chain: Chain, inner: Inner, leaves: seq<Leaf>, req: TransactionRequest, sent: Sent)
  {
    && !NoOwner(req)
    && Build(chain, leaves, req).Filled?
    && inner.build(Build(chain, leaves, req).flow.tx) == Ok(sent.hash)
    && RightmostWallet(leaves).Some?
    && SignedBy(RightmostWallet(leaves).value, req, sent.hash) == Ok(sent.signature)
    && inner.broadcast(sent.hash, sent.signature).Ok?
  }

  ghost function SignedBy(w: Wallet, req: TransactionRequest, hash: B256): Result<Signature, ProviderError>
  {
    if req.contract.Some? && (w.strict || w.holds(req.contract.value.owner))
    then w.signHash(req.contract.value.owner, hash)
    else w.signHash(w.defaultKey, hash)
  }

  /** The first step that fails gives the error; only the broadcast fails after something went out. */
  ghost predicate RefusedBy(chain: Chain, inner: Inner, leaves: seq<Leaf>, req: TransactionRequest, e: ProviderError,
      out: seq<Sent>)
  {
    if NoOwner(req) then e == MissingField("owner_address") && out == []
    else
      var built := Build(chain, leaves, req);
      if built.Aborted? then e == built.error && out == []
      else
        var hash := inner.build(built.flow.tx);
        if hash.Err? then e == hash.error && out == []
        else if RightmostWallet(leaves).None? then e == NoSigner && out == []
        else
          var signature := SignedBy(RightmostWallet(leaves).value, req, hash.value);
          if signature.Err? then e == signature.error && out == []
          else
            && inner.broadcast(hash.value, signature.value) == Err(e)
            && out == [Sent(hash.value, signature.value)]
  }

  lemma SendOutcome(chain: Chain, inner: Inner, leaves: seq<Leaf>, req: TransactionRequest)
    ensures var (r, out) := Send(chain, inner, leaves, req);
      && (r.Ok? ==> Sends(chain, inner, leaves, req, r.value) && out == [r.value])
      && (r.Err? ==> RefusedBy(chain, inner, leaves, req, r.error, out))
      && (r.Err? ==> forall sent :: !Sends(chain, inner, leaves, req, sent))
  {
  }

  /** `FilledProvider::send_transaction`: it succeeds exactly when every step does, and otherwise
      reports the first step that failed. */
  method SendTransaction(chain: Chain, inner: Inner, filler: Filler, req: TransactionRequest)
    returns (r: Result<Sent, ProviderError>, broadcasts: seq<Sent>)
    ensures (r, broadcasts) == Send(chain, inner, Leaves(filler), req)
    ensures r.Ok? <==> exists sent :: Sends(chain, inner, Leaves(filler), req, sent)
    ensures r.Ok? ==> Sends(chain, inner, Leaves(filler), req, r.value) && broadcasts == [r.value]
    ensures r.Err? ==> RefusedBy(chain, inner, Leaves(filler), req, r.error, broadcasts)
  {
    SendOutcome(chain, inner, Leaves(filler), req);
    broadcasts := [];
    var key: Option<Address> := None;
    if req.contract.Some? {
      key := Some(req.contract.value.owner);
      if key.value == ZeroAddress() {
        return Err(MissingField("owner_address")), [];
      }
    }
    var built := BuildRequest(chain, filler, req);
    if built.Aborted? {
      return Err(built.error), [];
    }
    var raw := inner.build(built.flow.tx);
    if raw.Err? {
      return Err(raw.error), [];
    }
    RightmostWalletSigns(filler, key, raw.value);
    var signed := SignWith(filler, key, raw.value);
    if signed.None? {
      return Err(NoSigner), [];
    }
    if signed.value.Err? {
      return Err(signed.value.error), [];
    }
    var sent := Sent(raw.value, signed.value.value);
    broadcasts := [sent];
    var out := inner.broadcast(sent.hash, sent.signature);
    r := if out.Ok? then Ok(sent) else Err(out.error);
  }

  /** Nothing goes out unless the fillers, the build and the signature all succeeded, and then
      exactly one transaction does: the one built from the filled request, signed by the
      rightmost wallet - in strict mode with the owner's own key and no other. */
  lemma WhatIsBroadcast(chain: Chain, inner: Inner, leaves: seq<Leaf>, req: TransactionRequest)
    ensures var (r, out) := Send(chain, inner, leaves, req);
      && (r.Ok? ==> out == [r.value])
      && (out != [] ==>
          && |out| == 1 && Build(chain, leaves, req).Filled?
          && inner.build(Build(chain, leaves, req).flow.tx) == Ok(out[0].hash)
          && RightmostWallet(leaves).Some?
          && var w := RightmostWallet(leaves).value;
          && (exists key :: w.signHash(key, out[0].hash) == Ok(out[0].signature)
                && (req.contract.Some? && w.strict ==> key == req.contract.value.owner != ZeroAddress())
                && (key == w.defaultKey || (req.contract.Some? && key == req.contract.value.owner))))
  {
    var (r, out) := Send(chain, inner, leaves, req);
    if out != [] {
      var w := RightmostWallet(leaves).value;
      var key := w.KeyFor(if req.contract.Some? then Some(req.contract.value.owner) else None);
      assert w.signHash(key, out[0].hash) == Ok(out[0].signature);
    }
  }
}
