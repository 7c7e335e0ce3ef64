/** The polling event watcher (`EventWatcher`, crates/contract/src/event_filter.rs). */
module EventWatcher {
  import opened Wrappers
  import opened Integers
  import opened ChainTypes
  import opened EventLogs
  import opened EventQuery

  const DEFAULT_CONFIRMATIONS: int := 19
  const DEFAULT_MAX_BLOCKS_PER_POLL: int := 1_000

  /** Block heights a node may report; `height + 1` still fits. */
  type Height = h: int | 0 <= h < I64_MAX

  /** What the node would answer during one poll: its head, and each block. Heads of
      successive polls are unrelated, and any request may fail. */
  datatype NodeView = NodeView(head: Result<Height, ContractError>, blocks: int -> BlockReply)

  function SaturatingAdd(a: I64, b: I64): I64 { Max(I64_MIN, Min(I64_MAX, a + b)) }

  /** The last block a poll may scan, if any is confirmed past the cursor. */
  function PollTarget(nextBlock: I64, lastConfirmed: I64, maxBlocks: I64): Option<I64>
    requires maxBlocks >= 1
  {
    if lastConfirmed >= nextBlock
    then Some(Min(lastConfirmed, SaturatingAdd(nextBlock, maxBlocks - 1)))
    else None
  }

  /** Saturation is invisible: the target is the one unbounded integers would give. */
  lemma SaturationIsInvisible(nextBlock: I64, lastConfirmed: I64, maxBlocks: I64)
    requires maxBlocks >= 1
    ensures PollTarget(nextBlock, lastConfirmed, maxBlocks)
         == if lastConfirmed < nextBlock then None
            else Some(Min(lastConfirmed, nextBlock + maxBlocks - 1))
  {
  }

  datatype Settings = Settings(confirmations: int, maxBlocks: int)
  {
    predicate Valid() { 0 <= confirmations <= I64_MAX && 1 <= maxBlocks <= I64_MAX }
  }

  /** The part of a watcher that polling changes. */
  datatype Cursor = Cursor(next: int, caughtUp: bool)

  /** One poll on unbounded integers. */
  function PollOnce<E>(f: EventFilter<E>, s: Settings, c: Cursor, node: NodeView): (Cursor, Events<E>)
  {
    match node.head
    case Err(e) => (c, Err(e))
    case Ok(head) =>
      var lastConfirmed := head - s.confirmations;
      if lastConfirmed < c.next then (Cursor(c.next, true), Ok([]))
      else
        var target := Min(lastConfirmed, c.next + s.maxBlocks - 1);
        match Scan(f, node.blocks, c.next, target)
        case Err(e) => (c, Err(e))
        case Ok(events) => (Cursor(target + 1, target == lastConfirmed), Ok(events))
  }

  class EventWatcher<!E> {
    const filter: EventFilter<E>
    var nextBlock: I64
    var confirmations: I64
    var maxBlocks: I64
    var caughtUp: bool

    ghost predicate Valid()
      reads this
    {
      filter.Valid() && CurrentSettings().Valid()
    }

    ghost function CurrentSettings(): Settings reads this { Settings(confirmations, maxBlocks) }

    ghost function Position(): Cursor reads this { Cursor(nextBlock, caughtUp) }

    /** `watch_from(block)`. */
    constructor WatchFrom(filter: EventFilter<E>, block: I64)
      requires filter.Valid()
      ensures Valid() && this.filter == filter
      ensures Position() == Cursor(block, false)
      ensures CurrentSettings() == Settings(19, 1_000)
    {
      this.filter := filter;
      nextBlock, caughtUp := block, false;
      confirmations, maxBlocks := DEFAULT_CONFIRMATIONS, DEFAULT_MAX_BLOCKS_PER_POLL;
    }

    /** `confirmations(blocks)`: negative values are treated as zero. */
    method SetConfirmations(blocks: I64)
      requires Valid()
      modifies this`confirmations
      ensures Valid() && confirmations == Max(blocks, 0)
    {
      confirmations := if blocks < 0 then 0 else blocks;
    }

    /** `max_blocks_per_poll(blocks)`: values below one are treated as one. */
    method SetMaxBlocksPerPoll(blocks: I64)
      requires Valid()
      modifies this`maxBlocks
      ensures Valid() && maxBlocks == Max(blocks, 1)
    {
      maxBlocks := if blocks < 1 then 1 else blocks;
    }

    /** `poll`: no arithmetic step leaves 64 bits, and a failure changes no field. */
    method Poll(node: NodeView) returns (r: Events<E>)
      requires Valid()
      modifies this`nextBlock, this`caughtUp
      ensures Valid()
      ensures (Position(), r) == PollOnce(filter, CurrentSettings(), old(Position()), node)
      ensures r.Err? ==> Position() == old(Position())
    {
      if node.head.Err? {
        return Err(node.head.error);
      }
      var lastConfirmed: I64 := node.head.value - confirmations;
      var target := PollTarget(nextBlock, lastConfirmed, maxBlocks);
      SaturationIsInvisible(nextBlock, lastConfirmed, maxBlocks);
      if target.None? {
        caughtUp := true;
        return Ok([]);
      }
      r := QueryRange(filter, node.blocks, nextBlock, target.value);
      if r.Ok? {
        nextBlock := target.value + 1;
        caughtUp := target.value == lastConfirmed;
      }
    }
  }

  /** `watch()`: one request for the head, then start just above it. */
  method Watch<E>(filter: EventFilter<E>, head: Result<Height, ContractError>)
    returns (r: Result<EventWatcher<E>, ContractError>)
    requires filter.Valid()
    ensures head.Err? ==> r == Err(head.error)
    ensures head.Ok? ==> r.Ok? && fresh(r.value) && r.value.Valid() && r.value.filter == filter
    ensures head.Ok? ==> r.Ok? && r.value.Position() == Cursor(head.value + 1, false)
    ensures head.Ok? ==>
      r.Ok? && r.value.CurrentSettings() == Settings(19, 1_000)
  {
    if head.Err? {
      return Err(head.error);
    }
    var w := new EventWatcher<E>.WatchFrom(filter, head.value + 1);
    return Ok(w);
  }

  /** What one poll promises, whatever the node does: an error is the node's or the scan's and
      changes nothing; nothing confirmed past the cursor is caught up with no events; otherwise
      the window is scanned, the cursor moves over it, and it is caught up exactly when the
      window reached the confirmed height. */
  lemma PollPromises<E>(f: EventFilter<E>, s: Settings, c: Cursor, node: NodeView)
    requires s.Valid()
    ensures var (c', r) := PollOnce(f, s, c, node);
      && (r.Err? ==> c' == c)
      && (node.head.Err? ==> r == Err(node.head.error))
      && (node.head.Ok? ==>
          && var confirmed := node.head.value - s.confirmations;
          && var last := Min(confirmed, c.next + s.maxBlocks - 1);
          && r == Scan(f, node.blocks, c.next, last)
          && (r.Ok? ==>
              && c'.next == Max(c.next, last + 1)
              && r == Scan(f, node.blocks, c.next, c'.next - 1)
              && c'.next == Max(c.next, Min(confirmed + 1, c.next + s.maxBlocks))
              && (c'.caughtUp <==> c'.next > confirmed)))
  {
  }

  // ---- Whole runs ----

  /** A run polls with any settings, or drops the watcher and resumes from its `next_block()`. */
  datatype Turn = Poll(settings: Settings, node: NodeView) | Resume

  function TakeTurn<E>(f: EventFilter<E>, c: Cursor, turn: Turn): (Cursor, Events<E>)
  {
    match turn
    case Poll(s, node) => PollOnce(f, s, c, node)
    case Resume => (Cursor(c.next, false), Ok([]))
  }

  /** The final cursor and everything the successful polls returned. */
  function Run<E>(f: EventFilter<E>, c: Cursor, turns: seq<Turn>): (Cursor, seq<E>)
    decreases turns
  {
    if turns == [] then (c, [])
    else
      var (c1, r) := TakeTurn(f, c, turns[0]);
      var (c2, rest) := Run(f, c1, turns[1..]);
      (c2, (if r.Ok? then r.value else []) + rest)
  }

  ghost predicate TruthfulView(s: Settings, node: NodeView, chain: int -> seq<TxInfo>)
  {
    node.head.Ok? ==> Truthful(node.blocks, chain, node.head.value - s.confirmations)
  }

  ghost predicate TruthfulTurns(turns: seq<Turn>, chain: int -> seq<TxInfo>)
  {
    forall i :: 0 <= i < |turns| && turns[i].Poll? ==>
      turns[i].settings.Valid() && TruthfulView(turns[i].settings, turns[i].node, chain)
  }

  lemma TruthfulSplit(turns: seq<Turn>, chain: int -> seq<TxInfo>)
    requires turns != [] && TruthfulTurns(turns, chain)
    ensures TruthfulTurns([turns[0]], chain) && TruthfulTurns(turns[1..], chain)
  {
    assert forall i :: 0 <= i < |turns| - 1 ==> turns[1..][i] == turns[i + 1];
  }

  /** `events` is the decoding of blocks `a` up to but not including `b`: nothing skipped,
      nothing repeated, in order. */
  ghost predicate Covers<E>(f: EventFilter<E>, chain: int -> seq<TxInfo>, a: int, b: int, events: seq<E>)
  {
    a <= b && DecodeLogs(f, ChainLogs(chain, a, b - 1)) == Ok(events)
  }

  lemma CoversJoin<E>(f: EventFilter<E>, chain: int -> seq<TxInfo>, a: int, b: int, c: int, left: seq<E>, right: seq<E>)
    requires Covers(f, chain, a, b, left) && Covers(f, chain, b, c, right)
    ensures Covers(f, chain, a, c, left + right)
  {
    ChainLogsSplit(chain, a, b - 1, c - 1);
    DecodeLogsConcat(f, ChainLogs(chain, a, b - 1), ChainLogs(chain, b, c - 1));
  }

  /** One turn moves the cursor over exactly the blocks whose events it returns. */
  lemma TurnDelivers<E>(f: EventFilter<E>, chain: int -> seq<TxInfo>, c: Cursor, turn: Turn)
    requires TruthfulTurns([turn], chain)
    ensures var (c', r) := TakeTurn(f, c, turn); Covers(f, chain, c.next, c'.next, if r.Ok? then r.value else [])
  {
    var (c', r) := TakeTurn(f, c, turn);
    assert [turn][0] == turn;
    if turn.Poll? && r.Ok? && c'.next > c.next {
      PollPromises(f, turn.settings, c, turn.node);
      ScanOfTruthfulNode(f, turn.node.blocks, chain, c.next, c'.next - 1);
    }
  }

  /** Exactly once, in order: whatever the heads do, whichever polls fail and wherever the
      run is cut and resumed, the events returned are the decoding of the blocks from the
      starting cursor up to the final one. */
  lemma {:induction false} ExactlyOnce<E>(f: EventFilter<E>, chain: int -> seq<TxInfo>, c: Cursor, turns: seq<Turn>)
    requires TruthfulTurns(turns, chain)
    ensures var (c', delivered) := Run(f, c, turns); Covers(f, chain, c.next, c'.next, delivered)
    decreases turns
  {
    if turns != [] {
      TruthfulSplit(turns, chain);
      TurnDelivers(f, chain, c, turns[0]);
      var (c1, r) := TakeTurn(f, c, turns[0]);
      ExactlyOnce(f, chain, c1, turns[1..]);
      var (c2, rest) := Run(f, c1, turns[1..]);
      CoversJoin(f, chain, c.next, c1.next, c2.next, if r.Ok? then r.value else [], rest);
    }
  }

  /** Two histories that reach the same block have reported the same events. */
  lemma SameCursorSameEvents<E>(f: EventFilter<E>, chain: int -> seq<TxInfo>, c: Cursor, left: seq<Turn>,
      right: seq<Turn>)
    requires TruthfulTurns(left, chain) && TruthfulTurns(right, chain)
    requires Run(f, c, left).0.next == Run(f, c, right).0.next
    ensures Run(f, c, left).1 == Run(f, c, right).1
  {
    ExactlyOnce(f, chain, c, left);
    ExactlyOnce(f, chain, c, right);
  }

  /** The price of losing nothing: a block with a matching log that does not decode is never
      passed, in any run, whatever is polled and however the run is cut and resumed. */
  lemma NeverPassesUndecodable<E>(f: EventFilter<E>, chain: int -> seq<TxInfo>, c: Cursor, turns: seq<Turn>,
      bad: int, k: nat)
    requires TruthfulTurns(turns, chain) && c.next <= bad
    requires var logs := FlatLogs(chain(bad));
      && k < |logs| && f.decodeRaw(logs[k]).Err?
      && (f.address == None || f.address == Some(logs[k].address))
      && (f.anonymous || (logs[k].topics != [] && logs[k].topics[0] == f.signature))
    ensures Run(f, c, turns).0.next <= bad
  {
    ExactlyOnce(f, chain, c, turns);
    if bad < Run(f, c, turns).0.next {
      UndecodableFails(f, FlatLogs(chain(bad)), k);
      NotCovered(f, chain, c.next, bad, Run(f, c, turns).0.next);
    }
  }

  lemma NotCovered<E>(f: EventFilter<E>, chain: int -> seq<TxInfo>, a: int, bad: int, b: int)
    requires a <= bad < b && DecodeLogs(f, FlatLogs(chain(bad))).Err?
    ensures DecodeLogs(f, ChainLogs(chain, a, b - 1)).Err?
  {
    ChainLogsSplit(chain, a, bad - 1, b - 1);
    DecodeLogsConcat(f, ChainLogs(chain, a, bad - 1), ChainLogs(chain, bad, b - 1));
    DecodeLogsConcat(f, FlatLogs(chain(bad)), ChainLogs(chain, bad + 1, b - 1));
  }

  // ---- Catching up ----

  function Backlog(c: Cursor, confirmed: int): nat { Max(0, confirmed + 1 - c.next) }

  function CeilDiv(n: nat, d: int): nat
    requires d >= 1
  {
    (n + d - 1) / d
  }

  /** Every poll sees this confirmed height and no request fails. */
  ghost predicate Steady<E>(f: EventFilter<E>, turns: seq<Turn>, s: Settings, head: Height, first: int)
  {
    forall i :: 0 <= i < |turns| ==>
      && turns[i].Poll? && turns[i].settings == s && turns[i].node.head == Ok(head)
      && forall b :: first <= b <= head - s.confirmations ==> BlockEvents(f, turns[i].node.blocks(b)).Ok?
  }

  lemma {:induction false} ScanOfServingNode<E>(f: EventFilter<E>, blocks: int -> BlockReply, from: int, last: int)
    requires forall b :: from <= b <= last ==> BlockEvents(f, blocks(b)).Ok?
    ensures Scan(f, blocks, from, last).Ok?
    decreases last - from
  {
    if from <= last {
      ScanOfServingNode(f, blocks, from + 1, last);
    }
  }

  lemma SteadyTurn<E>(f: EventFilter<E>, s: Settings, head: Height, c: Cursor, turn: Turn)
    requires s.Valid() && Steady(f, [turn], s, head, c.next)
    ensures var c' := TakeTurn(f, c, turn).0;
      var backlog := Backlog(c, head - s.confirmations);
      && c'.next == c.next + Min(s.maxBlocks, backlog)
      && Backlog(c', head - s.confirmations) == backlog - Min(s.maxBlocks, backlog)
      && (c'.caughtUp <==> s.maxBlocks >= backlog)
  {
    assert [turn][0] == turn;
    ScanOfServingNode(f, turn.node.blocks, c.next, Min(head - s.confirmations, c.next + s.maxBlocks - 1));
    PollPromises(f, s, c, turn.node);
  }

  lemma WindowArithmetic(k: nat, d: int, b: nat)
    requires d >= 1
    ensures Min(d, b) + Min(k * d, b - Min(d, b)) == Min((k + 1) * d, b)
    ensures k >= 1 ==> (k * d >= b - Min(d, b) <==> (k + 1) * d >= b)
  {
    assert (k + 1) * d == k * d + d;
    if k >= 1 { MulAtLeast(k, d); }
  }

  /** The exact position after any number of steady polls. */
  lemma {:induction false} SteadyProgress<E>(f: EventFilter<E>, s: Settings, head: Height, c: Cursor, turns: seq<Turn>)
    requires s.Valid() && Steady(f, turns, s, head, c.next)
    ensures var backlog := Backlog(c, head - s.confirmations);
      var c' := Run(f, c, turns).0;
      && c'.next == c.next + Min(|turns| * s.maxBlocks, backlog)
      && (turns != [] ==> (c'.caughtUp <==> |turns| * s.maxBlocks >= backlog))
    decreases turns
  {
    if turns != [] {
      var rest := turns[1..];
      assert [turns[0]][0] == turns[0];
      SteadyTurn(f, s, head, c, turns[0]);
      assert forall i :: 0 <= i < |rest| ==> rest[i] == turns[i + 1];
      SteadyProgress(f, s, head, TakeTurn(f, c, turns[0]).0, rest);
      WindowArithmetic(|rest|, s.maxBlocks, Backlog(c, head - s.confirmations));
    }
  }

  /** Polling `ceil(backlog / max_blocks)` times reaches the confirmed head, and no fewer do. */
  lemma CatchesUpInCeilPolls<E>(f: EventFilter<E>, s: Settings, head: Height, c: Cursor, turns: seq<Turn>)
    requires s.Valid() && turns != [] && Steady(f, turns, s, head, c.next)
    ensures var confirmed := head - s.confirmations;
      Run(f, c, turns).0.caughtUp <==> |turns| >= CeilDiv(Backlog(c, confirmed), s.maxBlocks)
    ensures var confirmed := head - s.confirmations;
      |turns| >= CeilDiv(Backlog(c, confirmed), s.maxBlocks) ==>
        Run(f, c, turns).0.next == Max(c.next, confirmed + 1)
  {
    SteadyProgress(f, s, head, c, turns);
    CeilDivMeaning(Backlog(c, head - s.confirmations), s.maxBlocks, |turns|);
  }

  lemma CeilDivMeaning(n: nat, d: int, k: nat)
    requires d >= 1
    ensures k >= CeilDiv(n, d) <==> k * d >= n
  {
    var q := CeilDiv(n, d);
    assert n + d - 1 == q * d + (n + d - 1) % d;
    if k >= q {
      assert k * d == q * d + (k - q) * d;
    } else {
      assert k * d == q * d - (q - k) * d;
      MulAtLeast(q - k, d);
    }
  }
}
