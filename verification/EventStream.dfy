/** The endless stream over a watcher (`EventWatcher::into_stream`,
    crates/contract/src/event_filter.rs): a queue of decoded events and a throttle flag on
    top of `poll`. */
module EventStream {
  import opened Wrappers
  import opened Integers
  import opened ChainTypes
  import opened EventLogs
  import opened EventQuery
  import opened EventWatcher

  /** What an observer sees; `queued` is the number of pending events at that moment. A poll
      shows how many events it found, or its error, and the height it took as confirmed (0 when
      the node did not say). */
  datatype Act<E> =
    | Item(event: E)
    | Failure(error: ContractError)
    | Sleep(queued: nat)
    | Polled(before: int, after: int, confirmed: int, outcome: Result<nat, ContractError>, queued: nat)

  /** The loop's variables. `throttle` is also what the unfold state carries as `failed`
      between two items, so suspending at an item and resuming is just the next turn. */
  datatype Loop<E> = Loop(cursor: Cursor, pending: seq<E>, throttle: bool)

  function Confirmed(s: Settings, node: NodeView): int
  {
    if node.head.Ok? then node.head.value - s.confirmations else 0
  }

  function Found<E>(r: Events<E>): Result<nat, ContractError>
  {
    match r
    case Ok(batch) => Ok(|batch|)
    case Err(e) => Err(e)
  }

  /** One turn of the loop, with what the node would answer if it is polled. */
  function TakeTurnOf<E>(f: EventFilter<E>, s: Settings, st: Loop<E>, node: NodeView): (Loop<E>, seq<Act<E>>)
  {
    if st.pending != [] then (Loop(st.cursor, st.pending[1..], false), [Item(st.pending[0])])
    else
      var n := |st.pending|;
      var (c, r) := PollOnce(f, s, st.cursor, node);
      var acts := (if st.throttle then [Sleep(n)] else [])
                  + [Polled(st.cursor.next, c.next, Confirmed(s, node), Found(r), n)];
      match r
      case Err(e) => (Loop(c, [], true), acts + [Failure(e)])
      case Ok(batch) =>
        if batch == [] && c.caughtUp then (Loop(c, [], false), acts + [Sleep(n)])
        else (Loop(c, batch, false), acts)
  }

  /** Any finite part of the stream's life: the state after these turns, and the trace. */
  function Drive<E>(f: EventFilter<E>, s: Settings, st: Loop<E>, nodes: seq<NodeView>): (Loop<E>, seq<Act<E>>)
    decreases nodes
  {
    if nodes == [] then (st, [])
    else
      var (st1, trace) := Drive(f, s, st, nodes[..|nodes| - 1]);
      var (st2, acts) := TakeTurnOf(f, s, st1, nodes[|nodes| - 1]);
      (st2, trace + acts)
  }

  ghost function Announced<E>(r: Result<E, ContractError>): Act<E>
  {
    match r
    case Ok(event) => Item(event)
    case Err(e) => Failure(e)
  }

  class EventStream<!E> {
    const watcher: EventWatcher<E>
    var pending: seq<E>
    var failed: bool
    ghost var trace: seq<Act<E>>

    ghost predicate Valid()
      reads this, watcher
    {
      watcher.Valid()
    }

    ghost function State(): Loop<E>
      reads this, watcher
    {
      Loop(watcher.Position(), pending, failed)
    }

    constructor IntoStream(watcher: EventWatcher<E>)
      requires watcher.Valid()
      ensures Valid() && this.watcher == watcher && trace == []
      ensures State() == Loop(watcher.Position(), [], false)
    {
      this.watcher := watcher;
      pending, failed, trace := [], false, [];
    }

    /** One turn of the loop: hand out a queued event, or sleep if one is owed and poll. */
    method Turn(node: NodeView) returns (item: Option<Result<E, ContractError>>)
      requires Valid()
      modifies this`pending, this`failed, this`trace, watcher`nextBlock, watcher`caughtUp
      ensures Valid() && watcher.CurrentSettings() == old(watcher.CurrentSettings())
      ensures var (st, acts) := TakeTurnOf(watcher.filter, watcher.CurrentSettings(), old(State()), node);
        State() == st && trace == old(trace) + acts
      ensures item.Some? ==> trace != [] && trace[|trace| - 1] == Announced(item.value)
      ensures item.None? <==> old(pending) == [] && !failed
    {
      ghost var acts: seq<Act<E>> := [];
      if pending != [] {
        item := Some(Ok(pending[0]));
        trace := trace + [Item(pending[0])];
        pending, failed := pending[1..], false;
        return;
      }
      if failed {
        acts := [Sleep(0)];
        failed := false;
      }
      ghost var from := watcher.nextBlock;
      var r := watcher.Poll(node);
      acts := acts + [Polled(from, watcher.nextBlock, Confirmed(watcher.CurrentSettings(), node), Found(r), 0)];
      match r {
        case Ok(batch) =>
          item := None;
          if batch == [] && watcher.caughtUp {
            acts := acts + [Sleep(0)];
          } else {
            pending := pending + batch;
          }
        case Err(e) =>
          acts := acts + [Failure(e)];
          item, failed := Some(Err(e)), true;
      }
      trace := trace + acts;
    }

    /** Ask for the next item. `nodes[i]` is the node on the i-th turn of the loop; when the
        turns run out before an item appears the request is still outstanding, and asking
        again continues where it stopped. */
    method Next(nodes: seq<NodeView>) returns (item: Option<Result<E, ContractError>>, used: nat)
      requires Valid()
      modifies this`pending, this`failed, this`trace, watcher`nextBlock, watcher`caughtUp
      ensures Valid() && watcher.CurrentSettings() == old(watcher.CurrentSettings())
      ensures used <= |nodes| && (item.None? ==> used == |nodes|)
      ensures (State(), trace)
           == DriveFrom(watcher.filter, watcher.CurrentSettings(), old(State()), nodes[..used], old(trace))
      ensures item.Some? ==> trace != [] && trace[|trace| - 1] == Announced(item.value)
    {
      used, item := 0, None;
      ghost var f, s, start := watcher.filter, watcher.CurrentSettings(), State();
      assert nodes[..0] == [] && trace + [] == trace;
      while used < |nodes|
        invariant used <= |nodes| && Valid() && watcher.CurrentSettings() == s
        invariant item.None?
        invariant DriveFrom(f, s, start, nodes[..used], old(trace)) == (State(), trace)
      {
        DriveFromSnoc(f, s, start, nodes, used + 1, old(trace));
        item := Turn(nodes[used]);
        used := used + 1;
        if item.Some? {
          return;
        }
      }
    }
  }

  ghost function DriveFrom<E>(f: EventFilter<E>, s: Settings, st: Loop<E>, nodes: seq<NodeView>, trace: seq<Act<E>>)
    : (Loop<E>, seq<Act<E>>)
  {
    var (st', acts) := Drive(f, s, st, nodes);
    (st', trace + acts)
  }

  lemma DriveFromSnoc<E>(f: EventFilter<E>, s: Settings, st: Loop<E>, nodes: seq<NodeView>, used: nat,
      trace: seq<Act<E>>)
    requires 0 < used <= |nodes|
    ensures var (st1, trace1) := DriveFrom(f, s, st, nodes[..used - 1], trace);
      var (st2, acts) := TakeTurnOf(f, s, st1, nodes[used - 1]);
      DriveFrom(f, s, st, nodes[..used], trace) == (st2, trace1 + acts)
  {
    assert nodes[..used][..used - 1] == nodes[..used - 1];
    var (st1, acts1) := Drive(f, s, st, nodes[..used - 1]);
    var (st2, acts) := TakeTurnOf(f, s, st1, nodes[used - 1]);
    assert trace + (acts1 + acts) == (trace + acts1) + acts;
  }

  // ---- Delivery ----

  function Items<E>(trace: seq<Act<E>>): seq<E>
  {
    if trace == [] then []
    else
      var last := trace[|trace| - 1];
      Items(trace[..|trace| - 1]) + (if last.Item? then [last.event] else [])
  }

  lemma {:induction false} ItemsConcat<E>(a: seq<Act<E>>, b: seq<Act<E>>)
    ensures Items(a + b) == Items(a) + Items(b)
  {
    if b == [] {
      assert a + b == a;
    } else {
      ItemsConcat(a, b[..|b| - 1]);
      assert (a + b)[..|a + b| - 1] == a + b[..|b| - 1];
    }
  }

  /** A turn either hands out the front of the queue or queues a poll's events. */
  lemma TurnKeepsEvents<E>(f: EventFilter<E>, s: Settings, st: Loop<E>, node: NodeView)
    ensures var (st', acts) := TakeTurnOf(f, s, st, node);
      && (st.pending != [] ==> st'.cursor == st.cursor && Items(acts) + st'.pending == st.pending)
      && (st.pending == [] ==>
          && st'.cursor == PollOnce(f, s, st.cursor, node).0
          && Items(acts) == []
          && var r := PollOnce(f, s, st.cursor, node).1;
             st'.pending == if r.Ok? then r.value else [])
  {
    var (st', acts) := TakeTurnOf(f, s, st, node);
    if st.pending != [] {
      assert acts == [] + [Item(st.pending[0])];
    } else {
      NoItems(acts);
    }
  }

  lemma {:induction false} NoItems<E>(acts: seq<Act<E>>)
    requires forall i :: 0 <= i < |acts| ==> !acts[i].Item?
    ensures Items(acts) == []
  {
    if acts != [] { NoItems(acts[..|acts| - 1]); }
  }

  ghost predicate TruthfulNodes(nodes: seq<NodeView>, s: Settings, chain: int -> seq<TxInfo>)
  {
    forall i :: 0 <= i < |nodes| ==> TruthfulView(s, nodes[i], chain)
  }

  /** A poll queues exactly the events of the blocks it moves over. */
  lemma TurnQueues<E>(f: EventFilter<E>, s: Settings, chain: int -> seq<TxInfo>, st: Loop<E>, node: NodeView)
    requires s.Valid() && TruthfulView(s, node, chain) && st.pending == []
    ensures var (st', acts) := TakeTurnOf(f, s, st, node);
      Items(acts) == [] && Covers(f, chain, st.cursor.next, st'.cursor.next, st'.pending)
  {
    TurnKeepsEvents(f, s, st, node);
    TruthfulPoll(s, node, chain);
    TurnDelivers(f, chain, st.cursor, Poll(s, node));
  }

  /** The items handed out so far, followed by the queue, are the decoding of the blocks from
      `start` up to the cursor. */
  ghost predicate DeliveredFrom<E>(f: EventFilter<E>, chain: int -> seq<TxInfo>, start: int, st: Loop<E>, out: seq<E>)
  {
    Covers(f, chain, start, st.cursor.next, out + st.pending)
  }

  lemma TurnDeliversOnce<E>(f: EventFilter<E>, s: Settings, chain: int -> seq<TxInfo>, start: int, st: Loop<E>,
      node: NodeView, out: seq<E>)
    requires s.Valid() && TruthfulView(s, node, chain) && DeliveredFrom(f, chain, start, st, out)
    ensures var (st', acts) := TakeTurnOf(f, s, st, node); DeliveredFrom(f, chain, start, st', out + Items(acts))
  {
    var (st', acts) := TakeTurnOf(f, s, st, node);
    if st.pending != [] {
      TurnKeepsEvents(f, s, st, node);
      assert out + st.pending == (out + Items(acts)) + st'.pending;
    } else {
      TurnQueues(f, s, chain, st, node);
      assert out + st.pending == out && out + Items(acts) == out;
      CoversJoin(f, chain, start, st.cursor.next, st'.cursor.next, out, st'.pending);
    }
  }

  /** Exactly once through the queue: for every sequence of node behaviours on one chain. */
  lemma {:induction false} StreamDeliversExactlyOnce<E>(f: EventFilter<E>, s: Settings, chain: int -> seq<TxInfo>,
      st: Loop<E>, nodes: seq<NodeView>)
    requires s.Valid() && TruthfulNodes(nodes, s, chain) && st.pending == []
    ensures var (st', trace) := Drive(f, s, st, nodes); DeliveredFrom(f, chain, st.cursor.next, st', Items(trace))
    decreases nodes
  {
    if nodes == [] {
      assert Items<E>([]) + [] == [];
    } else {
      var init, node := nodes[..|nodes| - 1], nodes[|nodes| - 1];
      StreamDeliversExactlyOnce(f, s, chain, st, init);
      var (st1, trace) := Drive(f, s, st, init);
      TurnDeliversOnce(f, s, chain, st.cursor.next, st1, node, Items(trace));
      ItemsConcat(trace, TakeTurnOf(f, s, st1, node).1);
    }
  }

  lemma TruthfulPoll(s: Settings, node: NodeView, chain: int -> seq<TxInfo>)
    requires s.Valid() && TruthfulView(s, node, chain)
    ensures TruthfulTurns([Poll(s, node)], chain)
  {
  }

  // ---- Pacing ----

  ghost predicate SleepsBetween<E>(trace: seq<Act<E>>, i: int, j: int)
  {
    exists k :: i < k < j && 0 <= k < |trace| && trace[k].Sleep?
  }

  ghost predicate Advanced<E>(act: Act<E>) { act.Polled? && act.outcome.Ok? && act.before < act.after }

  /** The stream never spins: it polls and sleeps only with an empty
      queue, two polls without a sleep between them mean the first one advanced, and a
      reported failure is followed by a sleep before the next poll. */
  ghost predicate Paced<E>(trace: seq<Act<E>>)
  {
    && (forall i :: 0 <= i < |trace| && trace[i].Sleep? ==> trace[i].queued == 0)
    && (forall i :: 0 <= i < |trace| && trace[i].Polled? ==> trace[i].queued == 0)
    && (forall i, j :: 0 <= i < j < |trace| && trace[i].Polled? && trace[j].Polled? ==>
          Advanced(trace[i]) || SleepsBetween(trace, i, j))
    && (forall i, j :: 0 <= i < j < |trace| && trace[i].Failure? && trace[j].Polled? ==>
          SleepsBetween(trace, i, j))
  }

  /** Polling next would keep the trace paced. */
  ghost predicate MayPoll<E>(trace: seq<Act<E>>)
  {
    && (forall i :: 0 <= i < |trace| && trace[i].Polled? ==> Advanced(trace[i]) || SleepsBetween(trace, i, |trace|))
    && (forall i :: 0 <= i < |trace| && trace[i].Failure? ==> SleepsBetween(trace, i, |trace|))
  }

  lemma SleepsBetweenSnoc<E>(trace: seq<Act<E>>, a: Act<E>)
    ensures forall i, j :: j <= |trace| && SleepsBetween(trace, i, j) ==>
      SleepsBetween(trace + [a], i, j) && SleepsBetween(trace + [a], i, |trace| + 1)
    ensures a.Sleep? ==> forall i, j :: 0 <= i < |trace| && j == |trace| + 1 ==> SleepsBetween(trace + [a], i, j)
  {
    forall i, j | j <= |trace| && SleepsBetween(trace, i, j)
      ensures SleepsBetween(trace + [a], i, j) && SleepsBetween(trace + [a], i, |trace| + 1)
    {
      var k :| i < k < j && 0 <= k < |trace| && trace[k].Sleep?;
      assert (trace + [a])[k].Sleep?;
    }
    assert (trace + [a])[|trace|] == a;
  }

  lemma PacedSnoc<E>(trace: seq<Act<E>>, a: Act<E>)
    requires Paced(trace)
    requires a.Sleep? || a.Polled? ==> a.queued == 0
    requires a.Polled? ==> MayPoll(trace)
    ensures Paced(trace + [a])
    ensures MayPoll(trace) && (a.Item? || Advanced(a)) ==> MayPoll(trace + [a])
    ensures a.Sleep? ==> MayPoll(trace + [a])
  {
    SleepsBetweenSnoc(trace, a);
  }

  /** The loop invariant: unless it owes a sleep, the stream may poll. */
  lemma TurnIsPaced<E>(f: EventFilter<E>, s: Settings, st: Loop<E>, node: NodeView, trace: seq<Act<E>>)
    requires s.Valid() && Paced(trace) && (st.throttle || MayPoll(trace)) && (st.throttle ==> st.pending == [])
    ensures var (st', acts) := TakeTurnOf(f, s, st, node);
      && Paced(trace + acts) && (st'.throttle || MayPoll(trace + acts)) && (st'.throttle ==> st'.pending == [])
  {
    var (st', acts) := TakeTurnOf(f, s, st, node);
    if st.pending != [] {
      PacedSnoc(trace, acts[0]);
    } else {
      PollPromises(f, s, st.cursor, node);
      var t := trace;
      if st.throttle {
        PacedSnoc(t, Sleep(0));
        t := t + [Sleep(0)];
      }
      var (c, r) := PollOnce(f, s, st.cursor, node);
      var poll: Act<E> := Polled(st.cursor.next, c.next, Confirmed(s, node), Found(r), 0);
      PacedSnoc(t, poll);
      t := t + [poll];
      if |acts| > 0 && !acts[|acts| - 1].Polled? {
        PacedSnoc(t, acts[|acts| - 1]);
        t := t + [acts[|acts| - 1]];
      }
      assert trace + acts == t;
    }
  }

  /** Whatever the node does, for ever: every finite part of the stream's life is paced. */
  lemma {:induction false} StreamNeverSpins<E>(f: EventFilter<E>, s: Settings, st: Loop<E>, nodes: seq<NodeView>)
    requires s.Valid() && st.pending == []
    ensures var (st', trace) := Drive(f, s, st, nodes);
      Paced(trace) && (st'.throttle || MayPoll(trace)) && (st'.throttle ==> st'.pending == [])
    decreases nodes
  {
    if nodes != [] {
      StreamNeverSpins(f, s, st, nodes[..|nodes| - 1]);
      var (st1, trace) := Drive(f, s, st, nodes[..|nodes| - 1]);
      TurnIsPaced(f, s, st1, nodes[|nodes| - 1], trace);
    }
  }

  // ---- Promptness ----

  predicate Nothing<E>(act: Act<E>) { act.Polled? && act.outcome == Ok(0) && act.after > act.confirmed }

  /** Every sleep is owed: it stands directly behind a reported error, or behind a successful poll
      that found nothing and left the cursor past the height it took as confirmed - or it opens
      the trace of a stream that starts throttled. Such a poll is followed by a sleep at once, a
      failed one by its error, and no error comes from anywhere else. */
  ghost predicate PromptAt<E>(trace: seq<Act<E>>, k: nat, throttled: bool)
    requires k < |trace|
  {
    && (trace[k].Sleep? ==>
          if k == 0 then throttled else trace[k - 1].Failure? || Nothing(trace[k - 1]))
    && (trace[k].Failure? ==>
          k > 0 && trace[k - 1].Polled? && trace[k - 1].outcome == Err(trace[k].error))
    && (Nothing(trace[k]) ==> k + 1 < |trace| && trace[k + 1].Sleep?)
    && (trace[k].Polled? && trace[k].outcome.Err? ==>
          k + 1 < |trace| && trace[k + 1] == Failure(trace[k].outcome.error))
  }

  ghost predicate Prompt<E>(trace: seq<Act<E>>, throttled: bool)
  {
    forall k: nat :: k < |trace| ==> PromptAt(trace, k, throttled)
  }

  /** The poll shown is one of this node: the confirmed height is its head less the confirmations,
      the count is that of the events of the window scanned, and the error is its own. */
  ghost predicate ShownBy<E>(f: EventFilter<E>, s: Settings, node: NodeView, act: Act<E>)
    requires act.Polled?
  {
    var last := Min(act.confirmed, act.before + s.maxBlocks - 1);
    match act.outcome
    case Ok(found) =>
      && node.head.Ok? && act.confirmed == node.head.value - s.confirmations
      && act.after == Max(act.before, last + 1)
      && var r := Scan(f, node.blocks, act.before, last); r.Ok? && |r.value| == found
    case Err(e) =>
      && act.after == act.before
      && (node.head == Err(e)
          || (node.head.Ok? && act.confirmed == node.head.value - s.confirmations
              && Scan(f, node.blocks, act.before, last) == Err(e)))
  }

  ghost predicate EachShown<E>(f: EventFilter<E>, s: Settings, nodes: seq<NodeView>, trace: seq<Act<E>>)
  {
    forall k :: 0 <= k < |trace| && trace[k].Polled? ==>
      exists i :: 0 <= i < |nodes| && ShownBy(f, s, nodes[i], trace[k])
  }

  lemma PromptAppend<E>(trace: seq<Act<E>>, acts: seq<Act<E>>, throttled: bool, owed: bool)
    requires Prompt(trace, throttled) && Prompt(acts, owed)
    requires owed ==> if trace == [] then throttled else trace[|trace| - 1].Failure?
    ensures Prompt(trace + acts, throttled)
  {
    var n, all := |trace|, trace + acts;
    forall k: nat | k < |all| ensures PromptAt(all, k, throttled) {
      if k < n {
        assert PromptAt(trace, k, throttled);
      } else {
        assert PromptAt(acts, k - n, owed);
      }
    }
  }

  lemma TurnIsPrompt<E>(f: EventFilter<E>, s: Settings, st: Loop<E>, node: NodeView)
    requires s.Valid() && (st.throttle ==> st.pending == [])
    ensures var (st', acts) := TakeTurnOf(f, s, st, node);
      && acts != [] && Prompt(acts, st.throttle)
      && (st'.throttle ==> st'.pending == [] && acts[|acts| - 1].Failure?)
  {
    PollPromises(f, s, st.cursor, node);
  }

  lemma TurnIsShown<E>(f: EventFilter<E>, s: Settings, st: Loop<E>, node: NodeView)
    requires s.Valid()
    ensures EachShown(f, s, [node], TakeTurnOf(f, s, st, node).1)
  {
    PollPromises(f, s, st.cursor, node);
    var acts := TakeTurnOf(f, s, st, node).1;
    forall k | 0 <= k < |acts| && acts[k].Polled?
      ensures exists i :: 0 <= i < |[node]| && ShownBy(f, s, [node][i], acts[k])
    {
      assert ShownBy(f, s, [node][0], acts[k]);
    }
  }

  lemma ShownAppend<E>(f: EventFilter<E>, s: Settings, nodes: seq<NodeView>, trace: seq<Act<E>>, node: NodeView,
      acts: seq<Act<E>>)
    requires EachShown(f, s, nodes, trace) && EachShown(f, s, [node], acts)
    ensures EachShown(f, s, nodes + [node], trace + acts)
  {
    var all := nodes + [node];
    forall k | 0 <= k < |trace + acts| && (trace + acts)[k].Polled?
      ensures exists i :: 0 <= i < |all| && ShownBy(f, s, all[i], (trace + acts)[k])
    {
      if k < |trace| {
        var i :| 0 <= i < |nodes| && ShownBy(f, s, nodes[i], trace[k]);
        assert all[i] == nodes[i];
      } else {
        var i :| 0 <= i < |[node]| && ShownBy(f, s, [node][i], acts[k - |trace|]);
        assert all[|nodes|] == node;
      }
    }
  }

  /** Over whole runs the stream never sleeps unless it owes a sleep: in particular it goes
      through a backlog of empty windows without a pause. What the trace shows of each poll is
      what one of the nodes answered. */
  lemma {:induction false} StreamNeverDawdles<E>(f: EventFilter<E>, s: Settings, st: Loop<E>, nodes: seq<NodeView>)
    requires s.Valid() && (st.throttle ==> st.pending == [])
    ensures var (st', trace) := Drive(f, s, st, nodes);
      && Prompt(trace, st.throttle) && EachShown(f, s, nodes, trace)
      && (st'.throttle ==> st'.pending == [] && if trace == [] then st.throttle else trace[|trace| - 1].Failure?)
    decreases nodes
  {
    if nodes != [] {
      var init, node := nodes[..|nodes| - 1], nodes[|nodes| - 1];
      StreamNeverDawdles(f, s, st, init);
      var (st1, trace) := Drive(f, s, st, init);
      var acts := TakeTurnOf(f, s, st1, node).1;
      TurnIsPrompt(f, s, st1, node);
      TurnIsShown(f, s, st1, node);
      PromptAppend(trace, acts, st.throttle, st1.throttle);
      ShownAppend(f, s, init, trace, node, acts);
      assert init + [node] == nodes;
    }
  }

  // ---- Liveness ----

  lemma {:induction false} DriveCons<E>(f: EventFilter<E>, s: Settings, st: Loop<E>, nodes: seq<NodeView>)
    requires nodes != []
    ensures Drive(f, s, st, nodes).0 == Drive(f, s, TakeTurnOf(f, s, st, nodes[0]).0, nodes[1..]).0
    decreases nodes
  {
    if |nodes| > 1 {
      var init := nodes[..|nodes| - 1];
      DriveCons(f, s, st, init);
      assert init[1..] == nodes[1..][..|nodes| - 2];
      assert init[0] == nodes[0];
    } else {
      assert nodes[1..] == [] && nodes[..0] == [];
    }
  }

  /** On a node that keeps answering, finitely many turns drain the backlog and the queue:
      every confirmed event has then been handed out. */
  lemma {:induction false} StreamCatchesUp<E>(f: EventFilter<E>, s: Settings, st: Loop<E>, node: NodeView)
    returns (turns: nat)
    requires s.Valid() && node.head.Ok?
    requires forall b :: st.cursor.next <= b <= node.head.value - s.confirmations ==> BlockEvents(f, node.blocks(b)).Ok?
    ensures var confirmed := node.head.value - s.confirmations;
      var st' := Drive(f, s, st, seq(turns, _ => node)).0;
      st'.pending == [] && st'.cursor.next == Max(st.cursor.next, confirmed + 1)
    decreases Backlog(st.cursor, node.head.value - s.confirmations), |st.pending|
  {
    var confirmed := node.head.value - s.confirmations;
    if st.pending == [] && st.cursor.next > confirmed {
      return 0;
    }
    if st.pending == [] {
      ScanOfServingNode(f, node.blocks, st.cursor.next, Min(confirmed, st.cursor.next + s.maxBlocks - 1));
      PollPromises(f, s, st.cursor, node);
    }
    var n := StreamCatchesUp(f, s, TakeTurnOf(f, s, st, node).0, node);
    turns := n + 1;
    var nodes := seq(turns, _ => node);
    DriveCons(f, s, st, nodes);
    assert nodes[1..] == seq(n, _ => node);
  }

  /** With that, every matching event of the backlog has been handed out, once and in order. */
  lemma StreamHandsOutTheBacklog<E>(f: EventFilter<E>, s: Settings, chain: int -> seq<TxInfo>, st: Loop<E>,
      node: NodeView)
    returns (turns: nat)
    requires s.Valid() && st.pending == [] && node.head.Ok? && TruthfulView(s, node, chain)
    requires forall b :: st.cursor.next <= b <= node.head.value - s.confirmations ==> BlockEvents(f, node.blocks(b)).Ok?
    ensures var (st', trace) := Drive(f, s, st, seq(turns, _ => node));
      && st'.pending == [] && st'.cursor.next == Max(st.cursor.next, node.head.value - s.confirmations + 1)
      && Covers(f, chain, st.cursor.next, st'.cursor.next, Items(trace))
  {
    turns := StreamCatchesUp(f, s, st, node);
    var nodes := seq(turns, _ => node);
    StreamDeliversExactlyOnce(f, s, chain, st, nodes);
    var trace := Drive(f, s, st, nodes).1;
    assert Items(trace) + [] == Items(trace);
  }
}
