/** Chain data shared by the event and interface models. */
module ChainTypes {
  newtype byte = x: int | 0 <= x < 256

  type Address = seq<byte>
  type B256 = s: seq<byte> | |s| == 32 witness seq(32, _ => 0)

  datatype Log = Log(address: Address, topics: seq<B256>, data: seq<byte>)

  /** What one transaction of a block left behind. */
  datatype TxInfo = TxInfo(logs: seq<Log>)

  datatype ContractError =
    | Provider(reason: string)
    | Abi(reason: string)
    | UnknownSelector(selector: seq<byte>)
    | UnknownEvent(topic: B256)
}

/** Typed log decoding (`TronEventFilter::decode_logs`, crates/contract/src/event_filter.rs). */
module EventLogs {
  import opened Wrappers
  import opened Positions
  import opened Integers
  import opened ChainTypes

  /** `decodeRaw` stands for the generated event decoder: an arbitrary partial function. */
  datatype EventFilter<!E> = EventFilter(
    address: Option<Address>,
    signature: B256,
    anonymous: bool,
    decodeRaw: Log -> Result<E, ContractError>,
    concurrency: nat)
  {
    predicate Matches(log: Log) {
      && (address.None? || log.address == address.value)
      && (anonymous || (log.topics != [] && log.topics[0] == signature))
    }

    predicate Valid() { concurrency >= 1 }

    /** `concurrency(blocks)`: values below one are treated as one. */
    function WithConcurrency(blocks: nat): (f: EventFilter<E>)
      ensures f.Valid() && f.concurrency == Max(blocks, 1)
      ensures forall log :: f.Matches(log) == Matches(log)
    {
      this.(concurrency := if blocks < 1 then 1 else blocks)
    }
  }

  type Events<E> = Result<seq<E>, ContractError>

  /** `filter(..).map(..).collect()`: collecting results stops at the first error. */
  function DecodeLogs<E>(f: EventFilter<E>, logs: seq<Log>): Events<E>
  {
    if logs == [] then Ok([])
    else if !f.Matches(logs[0]) then DecodeLogs(f, logs[1..])
    else
      match f.decodeRaw(logs[0])
      case Err(e) => Err(e)
      case Ok(event) =>
        match DecodeLogs(f, logs[1..])
        case Err(e) => Err(e)
        case Ok(events) => Ok([event] + events)
  }

  /** One result after another: the first error wins, otherwise the events are joined. */
  function Then<E>(a: Events<E>, b: Events<E>): Events<E>
  {
    if a.Err? then a else if b.Err? then b else Ok(a.value + b.value)
  }

  lemma ThenAssociative<E>(a: Events<E>, b: Events<E>, c: Events<E>)
    ensures Then(Then(a, b), c) == Then(a, Then(b, c))
  {
    if a.Ok? && b.Ok? && c.Ok? {
      assert (a.value + b.value) + c.value == a.value + (b.value + c.value);
    }
  }

  /** Decoding is a homomorphism: batches may be cut anywhere. */
  lemma {:induction false} DecodeLogsConcat<E>(f: EventFilter<E>, a: seq<Log>, b: seq<Log>)
    ensures DecodeLogs(f, a + b) == Then(DecodeLogs(f, a), DecodeLogs(f, b))
  {
    if a == [] {
      assert a + b == b;
      var r := DecodeLogs(f, b);
      assert r.Ok? ==> [] + r.value == r.value;
    } else {
      assert (a + b)[1..] == a[1..] + b;
      DecodeLogsConcat(f, a[1..], b);
      if f.Matches(a[0]) && f.decodeRaw(a[0]).Ok? {
        var first := f.decodeRaw(a[0]).value;
        var ra, rb := DecodeLogs(f, a[1..]), DecodeLogs(f, b);
        assert ra.Ok? && rb.Ok? ==> [first] + (ra.value + rb.value) == ([first] + ra.value) + rb.value;
      }
    }
  }

  // ---- Which logs are events, said of their fields ----

  /** `events` are the logs at these positions, decoded in order. */
  ghost predicate DecodedAt<E>(f: EventFilter<E>, logs: seq<Log>, events: seq<E>, at: seq<nat>)
  {
    && |events| == |at| && Increasing(at)
    && forall j :: 0 <= j < |at| ==> at[j] < |logs| && f.decodeRaw(logs[at[j]]) == Ok(events[j])
  }

  /** The positions are exactly those of the logs that come from the filter's address, if it has
      one, and carry its signature as their first topic, unless its event is anonymous. */
  ghost predicate ExactlyTheFilters<E>(f: EventFilter<E>, logs: seq<Log>, at: seq<nat>)
  {
    forall i: nat :: i < |logs| ==>
      (i in at <==> && (f.address == None || f.address == Some(logs[i].address))
                    && (f.anonymous || (logs[i].topics != [] && logs[i].topics[0] == f.signature)))
  }

  ghost predicate PicksOut<E>(f: EventFilter<E>, logs: seq<Log>, events: seq<E>, at: seq<nat>)
  {
    DecodedAt(f, logs, events, at) && ExactlyTheFilters(f, logs, at)
  }

  lemma ExactlyBehind<E>(f: EventFilter<E>, logs: seq<Log>, at: seq<nat>)
    requires logs != [] && Increasing(at) && ExactlyTheFilters(f, logs[1..], at)
    ensures ExactlyTheFilters(f, logs, Behind(at, f.Matches(logs[0])))
  {
    BehindFacts(at, f.Matches(logs[0]));
    assert forall i :: 0 < i < |logs| ==> logs[i] == logs[1..][i - 1];
  }

  lemma DecodedSkip<E>(f: EventFilter<E>, logs: seq<Log>, events: seq<E>, at: seq<nat>)
    requires logs != [] && DecodedAt(f, logs[1..], events, at)
    ensures DecodedAt(f, logs, events, Behind(at, false))
  {
    BehindFacts(at, false);
  }

  lemma DecodedTake<E>(f: EventFilter<E>, logs: seq<Log>, e: E, events: seq<E>, at: seq<nat>)
    requires logs != [] && DecodedAt(f, logs[1..], events, at) && f.decodeRaw(logs[0]) == Ok(e)
    ensures DecodedAt(f, logs, [e] + events, Behind(at, true))
  {
    BehindFacts(at, true);
  }

  /** What is returned is every log of the filter's address and signature, decoded, once and in
      order, and nothing else. */
  lemma {:induction false} EventsAreTheFiltersLogs<E>(f: EventFilter<E>, logs: seq<Log>) returns (at: seq<nat>)
    requires DecodeLogs(f, logs).Ok?
    ensures PicksOut(f, logs, DecodeLogs(f, logs).value, at)
  {
    at := [];
    if logs != [] {
      var tail := EventsAreTheFiltersLogs(f, logs[1..]);
      at := Behind(tail, f.Matches(logs[0]));
      ExactlyBehind(f, logs, tail);
      if f.Matches(logs[0]) {
        DecodedTake(f, logs, f.decodeRaw(logs[0]).value, DecodeLogs(f, logs[1..]).value, tail);
      } else {
        DecodedSkip(f, logs, DecodeLogs(f, logs[1..]).value, tail);
      }
    }
  }

  /** When it fails, such a log does not decode, and the error is that of the first. */
  lemma {:induction false} FailsAtTheFirstBadLog<E>(f: EventFilter<E>, logs: seq<Log>) returns (k: nat)
    requires DecodeLogs(f, logs).Err?
    ensures k < |logs| && f.decodeRaw(logs[k]) == Err(DecodeLogs(f, logs).error)
    ensures f.address == None || f.address == Some(logs[k].address)
    ensures f.anonymous || (logs[k].topics != [] && logs[k].topics[0] == f.signature)
    ensures DecodeLogs(f, logs[..k]).Ok?
  {
    k := 0;
    if !(f.Matches(logs[0]) && f.decodeRaw(logs[0]).Err?) {
      k := FailsAtTheFirstBadLog(f, logs[1..]);
      k := k + 1;
      assert logs[..k][1..] == logs[1..][..k - 1] && logs[..k][0] == logs[0];
    }
  }

  /** What the result says about the logs: success is every log of the filter decoded, in order,
      failure is the error of the first of them that does not decode. */
  lemma DecodeLogsMeaning<E>(f: EventFilter<E>, logs: seq<Log>) returns (at: seq<nat>, k: nat)
    ensures DecodeLogs(f, logs).Ok? ==> PicksOut(f, logs, DecodeLogs(f, logs).value, at)
    ensures DecodeLogs(f, logs).Err? ==>
      && k < |logs| && f.decodeRaw(logs[k]) == Err(DecodeLogs(f, logs).error)
      && (f.address == None || f.address == Some(logs[k].address))
      && (f.anonymous || (logs[k].topics != [] && logs[k].topics[0] == f.signature))
      && DecodeLogs(f, logs[..k]).Ok?
  {
    at, k := [], 0;
    if DecodeLogs(f, logs).Ok? {
      at := EventsAreTheFiltersLogs(f, logs);
    } else {
      k := FailsAtTheFirstBadLog(f, logs);
    }
  }

  /** One matching log that does not decode is enough to fail. */
  lemma {:induction false} UndecodableFails<E>(f: EventFilter<E>, logs: seq<Log>, k: nat)
    requires k < |logs| && f.Matches(logs[k]) && f.decodeRaw(logs[k]).Err?
    ensures DecodeLogs(f, logs).Err?
  {
    if k > 0 {
      UndecodableFails(f, logs[1..], k - 1);
    }
  }
}

/** Block and range queries (`query_block`, `query_range`). */
module EventQuery {
  import opened Wrappers
  import opened ChainTypes
  import opened EventLogs

  type BlockReply = Result<seq<TxInfo>, ContractError>

  function FlatLogs(infos: seq<TxInfo>): seq<Log>
  {
    if infos == [] then [] else FlatLogs(infos[..|infos| - 1]) + infos[|infos| - 1].logs
  }

  function BlockEvents<E>(f: EventFilter<E>, reply: BlockReply): Events<E>
  {
    match reply
    case Err(e) => Err(e)
    case Ok(infos) => DecodeLogs(f, FlatLogs(infos))
  }

  /** The logs of a block are those of its transactions, one transaction after another. */
  lemma {:induction false} FlatLogsAt(infos: seq<TxInfo>, i: nat, k: nat)
    requires i < |infos| && k < |infos[i].logs|
    ensures FlatLogs(infos[..i]) <= FlatLogs(infos)
    ensures |FlatLogs(infos[..i])| + k < |FlatLogs(infos)|
    ensures FlatLogs(infos)[|FlatLogs(infos[..i])| + k] == infos[i].logs[k]
  {
    FlatLogsSplit(infos, i + 1);
    assert infos[..i + 1][..i] == infos[..i];
  }

  /** `query_block`: decoding transaction by transaction is decoding the block's logs at once;
      what comes back is the filter's logs of the block. */
  method QueryBlock<E>(f: EventFilter<E>, reply: BlockReply) returns (r: Events<E>)
    ensures r == BlockEvents(f, reply)
    ensures reply.Err? ==> r == Err(reply.error)
    ensures reply.Ok? && r.Ok? ==> exists at :: PicksOut(f, FlatLogs(reply.value), r.value, at)
  {
    if reply.Err? {
      return Err(reply.error);
    }
    var infos := reply.value;
    var events: seq<E> := [];
    for i := 0 to |infos|
      invariant DecodeLogs(f, FlatLogs(infos[..i])) == Ok(events)
    {
      assert infos[..i + 1][..i] == infos[..i];
      DecodeLogsConcat(f, FlatLogs(infos[..i]), infos[i].logs);
      var batch := DecodeLogs(f, infos[i].logs);
      if batch.Err? {
        FlatLogsSplit(infos, i + 1);
        DecodeLogsConcat(f, FlatLogs(infos[..i + 1]), FlatLogs(infos[i + 1..]));
        return batch;
      }
      events := events + batch.value;
    }
    assert infos[..|infos|] == infos;
    ghost var at := EventsAreTheFiltersLogs(f, FlatLogs(infos));
    return Ok(events);
  }

  lemma {:induction false} FlatLogsSplit(infos: seq<TxInfo>, k: nat)
    requires k <= |infos|
    ensures FlatLogs(infos) == FlatLogs(infos[..k]) + FlatLogs(infos[k..])
    decreases |infos|
  {
    if k == |infos| {
      assert infos[..k] == infos;
    } else {
      var init := infos[..|infos| - 1];
      FlatLogsSplit(init, k);
      assert init[..k] == infos[..k];
      assert init[k..] == infos[k..][..|infos[k..]| - 1];
    }
  }

  /** The reference: visit the blocks one at a time, in order, stopping at the first error. */
  function Scan<E>(f: EventFilter<E>, blocks: int -> BlockReply, from: int, last: int): Events<E>
    decreases last - from
  {
    if from > last then Ok([])
    else Then(BlockEvents(f, blocks(from)), Scan(f, blocks, from + 1, last))
  }

  lemma {:induction false} ScanSplit<E>(f: EventFilter<E>, blocks: int -> BlockReply, from: int, mid: int, last: int)
    requires from <= mid + 1 && mid <= last
    ensures Scan(f, blocks, from, last) == Then(Scan(f, blocks, from, mid), Scan(f, blocks, mid + 1, last))
    decreases mid - from
  {
    if from == mid + 1 {
      var r := Scan(f, blocks, from, last);
      assert r.Ok? ==> [] + r.value == r.value;
    } else {
      ScanSplit(f, blocks, from + 1, mid, last);
      ThenAssociative(BlockEvents(f, blocks(from)), Scan(f, blocks, from + 1, mid), Scan(f, blocks, mid + 1, last));
    }
  }

  lemma ScanOne<E>(f: EventFilter<E>, blocks: int -> BlockReply, block: int)
    ensures Scan(f, blocks, block, block) == BlockEvents(f, blocks(block))
  {
    var r := BlockEvents(f, blocks(block));
    assert r.Ok? ==> r.value + [] == r.value;
  }

  /** A request in the window of `buffered(n)`. */
  datatype Slot<E> = InFlight(block: int) | Done(block: int, result: Events<E>)

  function Waiting<E>(window: seq<Slot<E>>): nat
  {
    if window == [] then 0 else (if window[0].InFlight? then 1 else 0) + Waiting(window[1..])
  }

  lemma {:induction false} WaitingUpdate<E>(window: seq<Slot<E>>, k: nat, s: Slot<E>)
    requires k < |window| && window[k].InFlight? && s.Done?
    ensures Waiting(window[k := s]) < Waiting(window)
  {
    if k == 0 {
      assert window[k := s][1..] == window[1..];
    } else {
      WaitingUpdate(window[1..], k - 1, s);
      assert window[k := s][1..] == window[1..][k - 1 := s];
    }
  }

  /** `query_range`: at most `concurrency` blocks in flight, replies arriving in any order,
      results folded in block order. Every resolution of the choices below - when a request
      starts, which one is answered next, when the head of the window is consumed - gives
      the sequential scan, including which error is reported; and the loop only stops when
      nothing is left to do, so no schedule gets stuck. */
  method QueryRange<E>(f: EventFilter<E>, blocks: int -> BlockReply, from: int, last: int) returns (r: Events<E>)
    requires f.Valid()
    ensures r == Scan(f, blocks, from, last)
  {
    if from > last {
      return Ok([]);
    }
    var next, window: seq<Slot<E>>, acc := from, [], [];
    while
      invariant from <= next - |window| && next <= last + 1
      invariant |window| <= f.concurrency
      invariant forall k :: 0 <= k < |window| ==>
        && window[k].block == next - |window| + k
        && (window[k].Done? ==> window[k].result == BlockEvents(f, blocks(window[k].block)))
      invariant Scan(f, blocks, from, next - |window| - 1) == Ok(acc)
      decreases last + 1 - next, Waiting(window), |window|
    {
      case |window| < f.concurrency && next <= last =>
        window, next := window + [InFlight(next)], next + 1;
      case exists k :: 0 <= k < |window| && window[k].InFlight? =>
        var k :| 0 <= k < |window| && window[k].InFlight?;
        var result := QueryBlock(f, blocks(window[k].block));
        WaitingUpdate(window, k, Done(window[k].block, result));
        window := window[k := Done(window[k].block, result)];
      case window != [] && window[0].Done? =>
        var block := window[0].block;
        ScanOne(f, blocks, block);
        ScanSplit(f, blocks, from, block - 1, block);
        ScanSplit(f, blocks, from, block, last);
        match window[0].result {
          case Err(e) => return Err(e);
          case Ok(batch) => acc := acc + batch;
        }
        window := window[1..];
    }
    return Ok(acc);
  }

  // ---- What a scan says about a chain ----

  /** The logs of blocks `from ..= to`, in order. */
  function ChainLogs(chain: int -> seq<TxInfo>, from: int, last: int): seq<Log>
    decreases last - from
  {
    if from > last then [] else FlatLogs(chain(from)) + ChainLogs(chain, from + 1, last)
  }

  lemma {:induction false} ChainLogsSplit(chain: int -> seq<TxInfo>, from: int, mid: int, last: int)
    requires from <= mid + 1 && mid <= last
    ensures ChainLogs(chain, from, last) == ChainLogs(chain, from, mid) + ChainLogs(chain, mid + 1, last)
    decreases mid - from
  {
    if from <= mid {
      ChainLogsSplit(chain, from + 1, mid, last);
    }
  }

  /** Where the node answers, it answers with the chain's own block. */
  ghost predicate Truthful(blocks: int -> BlockReply, chain: int -> seq<TxInfo>, last: int)
  {
    forall b :: b <= last && blocks(b).Ok? ==> blocks(b) == Ok(chain(b))
  }

  /** With every block answered, the scan is one decoding of the flattened logs. */
  lemma {:induction false} ScanIsOneDecoding<E>(f: EventFilter<E>, blocks: int -> BlockReply,
      chain: int -> seq<TxInfo>, from: int, last: int)
    requires forall b :: from <= b <= last ==> blocks(b) == Ok(chain(b))
    ensures Scan(f, blocks, from, last) == DecodeLogs(f, ChainLogs(chain, from, last))
    decreases last - from
  {
    if from <= last {
      ScanIsOneDecoding(f, blocks, chain, from + 1, last);
      DecodeLogsConcat(f, FlatLogs(chain(from)), ChainLogs(chain, from + 1, last));
    }
  }

  /** The first failing block cuts the scan: an undecodable log before it is reported
      first, otherwise the node's own error is. */
  lemma ScanStopsAtFirstFailure<E>(f: EventFilter<E>, blocks: int -> BlockReply, chain: int -> seq<TxInfo>,
      from: int, bad: int, last: int)
    requires from <= bad <= last && blocks(bad).Err?
    requires forall b :: from <= b < bad ==> blocks(b) == Ok(chain(b))
    ensures Scan(f, blocks, from, last) ==
      var before := DecodeLogs(f, ChainLogs(chain, from, bad - 1));
      if before.Err? then before else Err(blocks(bad).error)
  {
    ScanSplit(f, blocks, from, bad - 1, last);
    ScanIsOneDecoding(f, blocks, chain, from, bad - 1);
  }

  /** A scan that succeeds on a truthful node has decoded exactly the chain's logs. */
  lemma {:induction false} ScanOfTruthfulNode<E>(f: EventFilter<E>, blocks: int -> BlockReply,
      chain: int -> seq<TxInfo>, from: int, last: int)
    requires Truthful(blocks, chain, last)
    requires Scan(f, blocks, from, last).Ok?
    ensures Scan(f, blocks, from, last) == DecodeLogs(f, ChainLogs(chain, from, last))
    decreases last - from
  {
    if from <= last {
      ScanOfTruthfulNode(f, blocks, chain, from + 1, last);
      DecodeLogsConcat(f, FlatLogs(chain(from)), ChainLogs(chain, from + 1, last));
    }
  }
}
