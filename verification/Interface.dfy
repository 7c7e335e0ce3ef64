/** The ABI index of a contract interface (crates/contract/src/interface.rs). */
module AbiIndex {
  import opened Wrappers
  import opened SortedMap

  /** Where an overload sits: the name it is filed under and its place there. */
  datatype Slot = Slot(name: string, overload: nat)

  /** What an item is looked up by; items without a key are not indexed. */
  type Keys<!T, !K> = T -> Option<K>

  function SlotsFrom(name: string, first: nat, count: nat): (r: seq<Slot>)
    ensures |r| == count
  {
    seq(count, i requires 0 <= i < count => Slot(name, first + i))
  }

  /** All slots in iteration order. */
  function Slots<T>(m: Groups<T>): (r: seq<Slot>)
  {
    if m == [] then [] else SlotsFrom(m[0].name, 0, |m[0].items|) + Slots(m[1..])
  }

  /** Pairs collected into a hash map: a later one replaces an earlier one. */
  function Index<T, K(==)>(items: seq<T>, slots: seq<Slot>, keyOf: Keys<T, K>): map<K, Slot>
    requires |items| == |slots|
  {
    if items == [] then map[]
    else
      var n := |items| - 1;
      var before := Index(items[..n], slots[..n], keyOf);
      match keyOf(items[n])
      case None => before
      case Some(k) => before[k := slots[n]]
  }

  function BuildIndex<T, K(==)>(m: Groups<T>, keyOf: Keys<T, K>): map<K, Slot>
  {
    SlotsMatchItems(m);
    Index(Flatten(m), Slots(m), keyOf)
  }

  /** The overload in a slot, read back through the name. */
  function ItemAt<T>(m: Groups<T>, slot: Slot): Option<T>
  {
    match Lookup(m, slot.name)
    case None => None
    case Some(items) => if slot.overload < |items| then Some(items[slot.overload]) else None
  }

  function Find<T, K>(m: Groups<T>, index: map<K, Slot>, key: K): Option<T>
  {
    if key in index then ItemAt(m, index[key]) else None
  }

  // ---- The reference: a scan of the ABI, the last hit wins ----

  function LastWith<T, K(==)>(items: seq<T>, keyOf: Keys<T, K>, key: K): Option<T>
  {
    if items == [] then None
    else if keyOf(items[|items| - 1]) == Some(key) then Some(items[|items| - 1])
    else LastWith(items[..|items| - 1], keyOf, key)
  }

  ghost predicate IsLast<T, K>(items: seq<T>, keyOf: Keys<T, K>, key: K, p: int)
  {
    && 0 <= p < |items| && keyOf(items[p]) == Some(key)
    && forall i :: p < i < |items| ==> keyOf(items[i]) != Some(key)
  }

  /** It finds the last item of that key, and fails exactly when there is none. */
  lemma {:induction false} LastWithMeaning<T, K>(items: seq<T>, keyOf: Keys<T, K>, key: K) returns (p: int)
    ensures LastWith(items, keyOf, key).None? <==> forall i :: 0 <= i < |items| ==> keyOf(items[i]) != Some(key)
    ensures LastWith(items, keyOf, key).Some? ==>
      IsLast(items, keyOf, key, p) && LastWith(items, keyOf, key) == Some(items[p])
  {
    p := |items| - 1;
    if items != [] && keyOf(items[p]) != Some(key) {
      var init := items[..|items| - 1];
      p := LastWithMeaning(init, keyOf, key);
      assert forall i :: 0 <= i < |init| ==> items[i] == init[i];
    }
  }

  // ---- The index agrees with the scan ----

  lemma {:induction false} SlotsMatchItems<T>(m: Groups<T>)
    ensures |Slots(m)| == |Flatten(m)|
  {
    if m != [] { SlotsMatchItems(m[1..]); }
  }

  lemma {:induction false} LookupSorted<T>(m: Groups<T>, i: nat)
    requires Sorted(m) && i < |m|
    ensures Lookup(m, m[i].name) == Some(m[i].items)
  {
    if i > 0 {
      SortedUncons(m);
      LessIsIrreflexive(m[0].name);
      LookupSorted(m[1..], i - 1);
    }
  }

  /** A slot lies in a group of `m` and holds that item of it. */
  ghost predicate Holds<T>(m: Groups<T>, slot: Slot, item: T)
  {
    exists i ::
      && 0 <= i < |m| && m[i].name == slot.name
      && slot.overload < |m[i].items| && m[i].items[slot.overload] == item
  }

  lemma {:induction false} SlotHolds<T>(m: Groups<T>, k: nat)
    requires k < |Flatten(m)| && |Slots(m)| == |Flatten(m)|
    ensures Holds(m, Slots(m)[k], Flatten(m)[k])
  {
    SlotsMatchItems(m[1..]);
    var n := |m[0].items|;
    if k < n {
      assert Slots(m)[k] == Slot(m[0].name, k) && Flatten(m)[k] == m[0].items[k];
    } else {
      SlotHolds(m[1..], k - n);
      assert Slots(m)[k] == Slots(m[1..])[k - n] && Flatten(m)[k] == Flatten(m[1..])[k - n];
      var i :| 0 <= i < |m[1..]| && m[1..][i].name == Slots(m)[k].name && Slots(m)[k].overload < |m[1..][i].items|
        && m[1..][i].items[Slots(m)[k].overload] == Flatten(m)[k];
      assert m[i + 1] == m[1..][i];
    }
  }

  lemma {:induction false} IndexFindsLast<T, K>(items: seq<T>, slots: seq<Slot>, keyOf: Keys<T, K>, key: K)
    returns (p: int)
    requires |items| == |slots|
    ensures key in Index(items, slots, keyOf) <==> LastWith(items, keyOf, key).Some?
    ensures key in Index(items, slots, keyOf) ==>
      0 <= p < |items| && Index(items, slots, keyOf)[key] == slots[p] && LastWith(items, keyOf, key) == Some(items[p])
  {
    p := |items| - 1;
    if items != [] && keyOf(items[p]) != Some(key) {
      p := IndexFindsLast(items[..|items| - 1], slots[..|items| - 1], keyOf, key);
    }
  }

  /** For every key the index gives what scanning the ABI in (name, overload) order would give,
      the last item winning. */
  lemma IndexAgreesWithScan<T, K>(m: Groups<T>, keyOf: Keys<T, K>, key: K)
    requires Sorted(m)
    ensures Find(m, BuildIndex(m, keyOf), key) == LastWith(Flatten(m), keyOf, key)
    ensures key in BuildIndex(m, keyOf) <==> Find(m, BuildIndex(m, keyOf), key).Some?
  {
    SlotsMatchItems(m);
    var p := IndexFindsLast(Flatten(m), Slots(m), keyOf, key);
    if key in BuildIndex(m, keyOf) {
      SlotHolds(m, p);
      var slot := Slots(m)[p];
      var i :| 0 <= i < |m| && m[i].name == slot.name && slot.overload < |m[i].items|
        && m[i].items[slot.overload] == Flatten(m)[p];
      LookupSorted(m, i);
    }
  }
}

module Interface {
  import opened Wrappers
  import opened Positions
  import opened ChainTypes
  import opened AbiTypes
  import opened AbiIndex
  import M = SortedMap

  type Selector = seq<byte>

  /** The hashes the ABI library computes: arbitrary functions. */
  datatype Hashes = Hashes(selector: JsonItem -> Selector, topic: JsonItem -> B256)

  /** Its log decoder: an arbitrary partial function. */
  type Decoder<!D> = (JsonItem, Log) -> Option<D>

  datatype Interface = Interface(abi: JsonAbi, functions: map<Selector, Slot>, events: map<B256, Slot>)

  function FunctionKey(hashes: Hashes): JsonItem -> Option<Selector> { (f: JsonItem) => Some(hashes.selector(f)) }

  predicate Anonymous(e: JsonItem) { e.EventItem? && e.anonymous }

  /** Anonymous events carry no topic to be found by. */
  function EventKey(hashes: Hashes): JsonItem -> Option<B256>
  {
    (e: JsonItem) => if Anonymous(e) then None else Some(hashes.topic(e))
  }

  function New(hashes: Hashes, abi: JsonAbi): Interface
  {
    Interface(abi, BuildIndex(abi.functions, FunctionKey(hashes)), BuildIndex(abi.events, EventKey(hashes)))
  }

  function GetBySelector(i: Interface, selector: Selector): Result<JsonItem, ContractError>
  {
    match Find(i.abi.functions, i.functions, selector)
    case Some(f) => Ok(f)
    case None => Err(UnknownSelector(selector))
  }

  function GetEventByTopic(i: Interface, topic: B256): Result<JsonItem, ContractError>
  {
    match Find(i.abi.events, i.events, topic)
    case Some(e) => Ok(e)
    case None => Err(UnknownEvent(topic))
  }

  function ZeroTopic(): (topic: B256)
    ensures forall i :: 0 <= i < 32 ==> topic[i] == 0
  {
    seq(32, _ => 0)
  }

  function Topic0(log: Log): B256 { if log.topics == [] then ZeroTopic() else log.topics[0] }

  type Decoded<D> = Result<(string, D), ContractError>

  function DecodeWith<D>(decode: Decoder<D>, event: JsonItem, log: Log): Decoded<D>
  {
    match decode(event, log)
    case Some(d) => Ok((NameOf(event), d))
    case None => Err(Abi("event data"))
  }

  function DecodeLog<D>(decode: Decoder<D>, i: Interface, log: Log): Decoded<D>
  {
    match GetEventByTopic(i, Topic0(log))
    case Err(e) => Err(e)
    case Ok(event) => DecodeWith(decode, event, log)
  }

  /** Logs without a known first topic are skipped. */
  function DecodeLogs<D>(decode: Decoder<D>, i: Interface, logs: seq<Log>): seq<Decoded<D>>
  {
    if logs == [] then []
    else
      (if logs[0].topics == [] || logs[0].topics[0] !in i.events then [] else [DecodeLog(decode, i, logs[0])])
      + DecodeLogs(decode, i, logs[1..])
  }

  // ---- The index answers as a scan would ----

  /** `BTreeMap`s keep their keys in order. */
  ghost predicate Ordered(abi: JsonAbi) { M.Sorted(abi.functions) && M.Sorted(abi.events) }

  /** The last function with this selector, in (name, overload) order. */
  ghost predicate LastFunction(hashes: Hashes, abi: JsonAbi, selector: Selector, p: int)
  {
    var all := M.Flatten(abi.functions);
    && 0 <= p < |all| && hashes.selector(all[p]) == selector
    && forall k :: p < k < |all| ==> hashes.selector(all[k]) != selector
  }

  /** The last event with this topic, in (name, overload) order, anonymous ones left out. */
  ghost predicate LastEvent(hashes: Hashes, abi: JsonAbi, topic: B256, p: int)
  {
    var all := M.Flatten(abi.events);
    && 0 <= p < |all| && hashes.topic(all[p]) == topic && !(all[p].EventItem? && all[p].anonymous)
    && forall k :: p < k < |all| ==> hashes.topic(all[k]) != topic || (all[k].EventItem? && all[k].anonymous)
  }

  /** A selector finds the last function that has it, and the search fails, naming it, exactly
      when none has. */
  lemma SelectorsAgreeWithScan(hashes: Hashes, abi: JsonAbi, selector: Selector) returns (p: int)
    requires Ordered(abi)
    ensures var all, r := M.Flatten(abi.functions), GetBySelector(New(hashes, abi), selector);
      && (r.Err? <==> forall k :: 0 <= k < |all| ==> hashes.selector(all[k]) != selector)
      && (r.Err? ==> r.error == UnknownSelector(selector))
      && (r.Ok? ==> LastFunction(hashes, abi, selector, p) && r.value == all[p])
  {
    var all := M.Flatten(abi.functions);
    IndexAgreesWithScan(abi.functions, FunctionKey(hashes), selector);
    p := LastWithMeaning(all, FunctionKey(hashes), selector);
    assert forall k :: 0 <= k < |all| ==> FunctionKey(hashes)(all[k]) == Some(hashes.selector(all[k]));
  }

  /** A topic finds the last event that has it and is not anonymous, and the search fails,
      naming it, exactly when there is none. */
  lemma TopicsAgreeWithScan(hashes: Hashes, abi: JsonAbi, topic: B256) returns (p: int)
    requires Ordered(abi)
    ensures var all, r := M.Flatten(abi.events), GetEventByTopic(New(hashes, abi), topic);
      && (r.Err? <==>
            forall k :: 0 <= k < |all| ==> hashes.topic(all[k]) != topic || (all[k].EventItem? && all[k].anonymous))
      && (r.Err? ==> r.error == UnknownEvent(topic))
      && (r.Ok? ==> LastEvent(hashes, abi, topic, p) && r.value == all[p])
  {
    var all := M.Flatten(abi.events);
    IndexAgreesWithScan(abi.events, EventKey(hashes), topic);
    p := LastWithMeaning(all, EventKey(hashes), topic);
    assert forall k :: 0 <= k < |all| ==>
      (EventKey(hashes)(all[k]) == Some(topic) <==> !Anonymous(all[k]) && hashes.topic(all[k]) == topic);
  }

  /** Decoding one log: by the last event with its first topic, giving that event's name and what
      the library decodes, or the library's error; a log without topics counts as having the
      zero one. */
  lemma DecodeLogMeaning<D>(hashes: Hashes, decode: Decoder<D>, abi: JsonAbi, log: Log) returns (p: int)
    requires Ordered(abi)
    ensures var all, topic := M.Flatten(abi.events), if log.topics == [] then ZeroTopic() else log.topics[0];
      match DecodeLog(decode, New(hashes, abi), log)
      case Ok((name, decoded)) =>
        LastEvent(hashes, abi, topic, p) && name == NameOf(all[p]) && decode(all[p], log) == Some(decoded)
      case Err(UnknownEvent(t)) =>
        && t == topic
        && forall k :: 0 <= k < |all| ==> hashes.topic(all[k]) != topic || (all[k].EventItem? && all[k].anonymous)
      case Err(e) => e.Abi? && LastEvent(hashes, abi, topic, p) && decode(all[p], log) == None
  {
    p := TopicsAgreeWithScan(hashes, abi, Topic0(log));
  }

  // ---- Decoding many logs ----

  /** The reference: each log is decoded by the last named event with its first topic. */
  function ScanLogs<D>(hashes: Hashes, decode: Decoder<D>, abi: JsonAbi, logs: seq<Log>): seq<Decoded<D>>
  {
    if logs == [] then []
    else
      (if logs[0].topics == [] then []
       else
         match LastWith(M.Flatten(abi.events), EventKey(hashes), logs[0].topics[0])
         case None => []
         case Some(event) => [DecodeWith(decode, event, logs[0])])
      + ScanLogs(hashes, decode, abi, logs[1..])
  }

  /** Whether decoding many logs reports on this one. */
  ghost predicate Reported(hashes: Hashes, abi: JsonAbi, log: Log)
  {
    log.topics != [] && exists p :: LastEvent(hashes, abi, log.topics[0], p)
  }

  /** `r` is what decoding the logs at these positions one by one gives, in order. */
  ghost predicate ReportsAt<D>(decode: Decoder<D>, i: Interface, logs: seq<Log>, r: seq<Decoded<D>>, at: seq<nat>)
  {
    && |r| == |at| && Increasing(at)
    && forall j :: 0 <= j < |at| ==> at[j] < |logs| && r[j] == DecodeLog(decode, i, logs[at[j]])
  }

  ghost predicate ExactlyReported(hashes: Hashes, abi: JsonAbi, logs: seq<Log>, at: seq<nat>)
  {
    forall i: nat :: i < |logs| ==> (i in at <==> Reported(hashes, abi, logs[i]))
  }

  lemma ReportsBehind<D>(decode: Decoder<D>, i: Interface, logs: seq<Log>, r: seq<Decoded<D>>, at: seq<nat>,
      known: bool)
    requires logs != [] && ReportsAt(decode, i, logs[1..], r, at)
    ensures ReportsAt(decode, i, logs, (if known then [DecodeLog(decode, i, logs[0])] else []) + r, Behind(at, known))
  {
    BehindFacts(at, known);
  }

  lemma ExactlyReportedBehind(hashes: Hashes, abi: JsonAbi, logs: seq<Log>, at: seq<nat>, known: bool)
    requires logs != [] && Increasing(at) && ExactlyReported(hashes, abi, logs[1..], at)
    requires known <==> Reported(hashes, abi, logs[0])
    ensures ExactlyReported(hashes, abi, logs, Behind(at, known))
  {
    BehindFacts(at, known);
    assert forall i :: 0 < i < |logs| ==> logs[i] == logs[1..][i - 1];
  }

  /** The reports are those of the logs at some positions, one each, in order; and the positions
      are exactly those of the logs whose first topic is that of an event that is not anonymous. */
  lemma {:induction false} DecodeLogsPositions<D>(hashes: Hashes, decode: Decoder<D>, abi: JsonAbi, logs: seq<Log>)
    returns (at: seq<nat>)
    requires Ordered(abi)
    ensures ReportsAt(decode, New(hashes, abi), logs, DecodeLogs(decode, New(hashes, abi), logs), at)
    ensures ExactlyReported(hashes, abi, logs, at)
  {
    at := [];
    if logs != [] {
      var tail := DecodeLogsPositions(hashes, decode, abi, logs[1..]);
      var i := New(hashes, abi);
      KeyMeansReported(hashes, abi, logs[0]);
      var known := logs[0].topics != [] && logs[0].topics[0] in i.events;
      at := Behind(tail, known);
      ReportsBehind(decode, i, logs, DecodeLogs(decode, i, logs[1..]), tail, known);
      ExactlyReportedBehind(hashes, abi, logs, tail, known);
    }
  }

  lemma KeyMeansReported(hashes: Hashes, abi: JsonAbi, log: Log)
    requires Ordered(abi)
    ensures log.topics != [] && log.topics[0] in New(hashes, abi).events <==> Reported(hashes, abi, log)
  {
    if log.topics != [] {
      var p := TopicsAgreeWithScan(hashes, abi, log.topics[0]);
      IndexAgreesWithScan(abi.events, EventKey(hashes), log.topics[0]);
    }
  }

  /** Skipping by key and decoding by topic never disagree: the result is the scan's, so a log
      that passes the key check never comes out as an unknown event. */
  lemma {:induction false} DecodeLogsAgreesWithScan<D>(hashes: Hashes, decode: Decoder<D>, abi: JsonAbi, logs: seq<Log>)
    requires Ordered(abi)
    ensures DecodeLogs(decode, New(hashes, abi), logs) == ScanLogs(hashes, decode, abi, logs)
    ensures forall k :: 0 <= k < |DecodeLogs(decode, New(hashes, abi), logs)| ==>
      var d := DecodeLogs(decode, New(hashes, abi), logs)[k]; d.Err? ==> !d.error.UnknownEvent?
  {
    if logs != [] {
      DecodeLogsAgreesWithScan(hashes, decode, abi, logs[1..]);
      IndexAgreesWithScan(abi.events, EventKey(hashes), Topic0(logs[0]));
    }
  }

  /** A single log without topics is looked up under the zero topic, and so is unknown unless
      some event hashes to zero. */
  lemma LogWithoutTopics<D>(hashes: Hashes, decode: Decoder<D>, abi: JsonAbi, log: Log)
    requires Ordered(abi) && log.topics == []
    ensures DecodeLog(decode, New(hashes, abi), log) == Err(UnknownEvent(ZeroTopic())) <==>
      forall k :: 0 <= k < |M.Flatten(abi.events)| ==>
        Anonymous(M.Flatten(abi.events)[k]) || hashes.topic(M.Flatten(abi.events)[k]) != ZeroTopic()
    ensures DecodeLogs(decode, New(hashes, abi), [log]) == []
  {
    var p := TopicsAgreeWithScan(hashes, abi, ZeroTopic());
    assert [log][1..] == [];
  }
}
