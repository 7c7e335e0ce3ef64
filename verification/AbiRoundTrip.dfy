/** What survives a conversion there and back (crates/abi/src/alloy.rs). */
module AbiRoundTrip {
  import opened Wrappers
  import opened AbiTypes
  import opened AbiGrouping
  import opened TronAbi
  import M = SortedMap

  // ---- What TRON metadata cannot carry ----

  /** Component names and internal types go, at every depth. */
  function EraseComponents(ps: seq<Param>): seq<Param>
  {
    if ps == [] then []
    else [Param(ps[0].ty, "", EraseComponents(ps[0].components), None)] + EraseComponents(ps[1..])
  }

  function Erase(p: Param): Param { Param(p.ty, p.name, EraseComponents(p.components), None) }

  /** Erasing keeps types, tuple shapes and the parameter's own name, and nothing else. */
  lemma {:induction false} EraseMeaning(ps: seq<Param>)
    ensures |EraseComponents(ps)| == |ps|
    ensures forall i :: 0 <= i < |ps| ==>
      var q := EraseComponents(ps)[i];
      q.ty == ps[i].ty && q.name == "" && q.internalType == None && q.components == EraseComponents(ps[i].components)
    ensures forall p :: Erase(p).ty == p.ty && Erase(p).name == p.name && Erase(p).internalType == None
    ensures forall p :: Erase(p).components == EraseComponents(p.components)
  {
    if ps != [] {
      EraseMeaning(ps[1..]);
    }
  }

  function EraseParams(ps: seq<Param>): seq<Param> { M.MapSeq(Erase, ps) }

  function EraseEventParam(p: EventParam): EventParam { EventParam(Erase(p.param), p.indexed) }

  function EraseItem(item: JsonItem): JsonItem
  {
    match item
    case ConstructorItem(inputs, state) => ConstructorItem(EraseParams(inputs), state)
    case FallbackItem(_) => item
    case ReceiveItem(_) => item
    case FunctionItem(name, inputs, outputs, state) =>
      FunctionItem(name, EraseParams(inputs), EraseParams(outputs), state)
    case EventItem(name, params, anonymous) => EventItem(name, M.MapSeq(EraseEventParam, params), anonymous)
    case ErrorItem(name, inputs) => ErrorItem(name, EraseParams(inputs))
  }

  function MapOption<T, U>(f: T -> U, o: Option<T>): Option<U> { if o.Some? then Some(f(o.value)) else None }

  function EraseGroups(m: M.Groups<JsonItem>): M.Groups<JsonItem> { M.NonEmpty(M.MapGroups(EraseItem, m)) }

  /** Erased items; groups without any go too. */
  function EraseAbi(j: JsonAbi): JsonAbi
  {
    JsonAbi(MapOption(EraseItem, j.constructor_), MapOption(EraseItem, j.fallback), MapOption(EraseItem, j.receive),
            EraseGroups(j.functions), EraseGroups(j.events), EraseGroups(j.errors))
  }

  // ---- Well-formed JSON ABIs ----

  ghost predicate GroupOk(m: M.Groups<JsonItem>, kind: EntryType)
  {
    && M.WellFormed(m, NameOf)
    && AllOfKind(M.Flatten(m), kind, KindOf)
  }

  ghost predicate SingleOk(o: Option<JsonItem>, kind: EntryType) { o.Some? ==> KindOf(o.value) == kind }

  /** Map keys are the names of their items, in order; the rest is Rust's typing. */
  ghost predicate WellFormedAbi(j: JsonAbi)
  {
    && SingleOk(j.constructor_, Constructor) && SingleOk(j.fallback, Fallback) && SingleOk(j.receive, Receive)
    && GroupOk(j.functions, Function) && GroupOk(j.events, Event) && GroupOk(j.errors, Error)
  }

  /** The library reads this parameter's own selector type and name back, up to erasure. */
  predicate ReadsBack(lib: Lib, p: Param)
  {
    var ty := lib.selectorType(p);
    !BareTuple(ty) && lib.parseParam(Declaration(ty, p.name)) == Some(Erase(p))
  }

  ghost predicate AllReadBack(lib: Lib, ps: seq<Param>) { forall i :: 0 <= i < |ps| ==> ReadsBack(lib, ps[i]) }

  ghost predicate ItemReadsBack(lib: Lib, item: JsonItem)
  {
    match item
    case ConstructorItem(inputs, _) => AllReadBack(lib, inputs)
    case FunctionItem(_, inputs, outputs, _) => AllReadBack(lib, inputs) && AllReadBack(lib, outputs)
    case EventItem(_, params, _) => forall i :: 0 <= i < |params| ==> ReadsBack(lib, params[i].param)
    case ErrorItem(_, inputs) => AllReadBack(lib, inputs)
    case _ => true
  }

  ghost predicate AllItemsReadBack(lib: Lib, items: seq<JsonItem>)
  {
    forall i :: 0 <= i < |items| ==> ItemReadsBack(lib, items[i])
  }

  // ---- One item there and back ----

  lemma {:induction false} ParamsThereAndBack(lib: Lib, ps: seq<Param>)
    requires AllReadBack(lib, ps) && ParamsFromJson(lib, ps).Ok?
    ensures ParamsToJson(lib, ParamsFromJson(lib, ps).value) == Ok(EraseParams(ps))
  {
    if ps != [] {
      assert ReadsBack(lib, ps[0]);
      ParamsThereAndBack(lib, ps[1..]);
      var ts := ParamsFromJson(lib, ps).value;
      assert ts[1..] == ParamsFromJson(lib, ps[1..]).value;
    }
  }

  lemma {:induction false} EventParamsThereAndBack(lib: Lib, ps: seq<EventParam>)
    requires (forall i :: 0 <= i < |ps| ==> ReadsBack(lib, ps[i].param)) && EventParamsFromJson(lib, ps).Ok?
    ensures EventParamsToJson(lib, EventParamsFromJson(lib, ps).value) == Ok(M.MapSeq(EraseEventParam, ps))
  {
    if ps != [] {
      assert ReadsBack(lib, ps[0].param);
      EventParamsThereAndBack(lib, ps[1..]);
      var ts := EventParamsFromJson(lib, ps).value;
      assert ts[1..] == EventParamsFromJson(lib, ps[1..]).value;
    }
  }

  lemma ItemThereAndBack(lib: Lib, item: JsonItem)
    requires ItemReadsBack(lib, item) && EntryOf(lib, item).Ok?
    ensures ItemOf(lib, EntryOf(lib, item).value) == Ok(EraseItem(item))
  {
    match item
    case ConstructorItem(inputs, _) => ParamsThereAndBack(lib, inputs);
    case FunctionItem(name, inputs, outputs, state) => FunctionThereAndBack(lib, name, inputs, outputs, state);
    case EventItem(_, params, _) => EventParamsThereAndBack(lib, params);
    case ErrorItem(_, inputs) => ParamsThereAndBack(lib, inputs);
    case _ =>
  }

  lemma FunctionThereAndBack(lib: Lib, name: string, inputs: seq<Param>, outputs: seq<Param>, state: Mutability)
    requires AllReadBack(lib, inputs) && AllReadBack(lib, outputs)
    requires EntryOf(lib, FunctionItem(name, inputs, outputs, state)).Ok?
    ensures ItemOf(lib, EntryOf(lib, FunctionItem(name, inputs, outputs, state)).value)
         == Ok(FunctionItem(name, EraseParams(inputs), EraseParams(outputs), state))
  {
    ParamsThereAndBack(lib, inputs);
    ParamsThereAndBack(lib, outputs);
  }

  lemma {:induction false} ItemsThereAndBack(lib: Lib, items: seq<JsonItem>)
    requires AllItemsReadBack(lib, items) && EntriesOf(lib, items).Ok?
    ensures ItemsOf(lib, EntriesOf(lib, items).value) == Ok(M.MapSeq(EraseItem, items))
  {
    if items != [] {
      ItemThereAndBack(lib, items[0]);
      ItemsThereAndBack(lib, items[1..]);
      var es := EntriesOf(lib, items).value;
      assert es[1..] == EntriesOf(lib, items[1..]).value;
    }
  }

  // ---- Placing what was listed ----

  lemma SelectOfItems(j: JsonAbi, kind: EntryType)
    requires WellFormedAbi(j)
    ensures Single(kind) ==> Select(Items(j), kind, KindOf) == OptSeq(SingleOf(j, kind))
    ensures Named(kind) ==> Select(Items(j), kind, KindOf) == M.Flatten(GroupsOf(j, kind))
  {
    SelectPart(OptSeq(j.constructor_), OptSeq(j.fallback), OptSeq(j.receive),
               M.Flatten(j.functions), M.Flatten(j.events), M.Flatten(j.errors), kind, KindOf);
  }

  function DropEmptyGroups(j: JsonAbi): JsonAbi
  {
    j.(functions := M.NonEmpty(j.functions), events := M.NonEmpty(j.events), errors := M.NonEmpty(j.errors))
  }

  /** Listing an ABI's items and placing them again only loses empty groups. */
  lemma PlacingWhatWasListed(j: JsonAbi)
    requires WellFormedAbi(j)
    ensures PlaceAll(EMPTY_ABI, Items(j)) == Some(DropEmptyGroups(j))
  {
    PlacingListedSucceeds(j);
    var r := PlaceAll(EMPTY_ABI, Items(j)).value;
    SlotsBack(j, r);
    GroupsBack(j, r);
    SameSlots(r, DropEmptyGroups(j));
  }

  lemma SameSlots(r: JsonAbi, s: JsonAbi)
    requires r.constructor_ == s.constructor_ && r.fallback == s.fallback && r.receive == s.receive
    requires r.functions == s.functions && r.events == s.events && r.errors == s.errors
    ensures r == s
  {
  }

  lemma ListedFits(j: JsonAbi, kind: EntryType)
    requires WellFormedAbi(j) && Single(kind)
    ensures Fits(EMPTY_ABI, Items(j), kind)
  {
    SelectOfItems(j, kind);
  }

  lemma PlacingListedSucceeds(j: JsonAbi)
    requires WellFormedAbi(j)
    ensures PlaceAll(EMPTY_ABI, Items(j)).Some?
  {
    ListedFits(j, Constructor);
    ListedFits(j, Fallback);
    ListedFits(j, Receive);
    PlacingSucceeds(EMPTY_ABI, Items(j));
  }

  lemma SlotsBack(j: JsonAbi, r: JsonAbi)
    requires WellFormedAbi(j) && PlaceAll(EMPTY_ABI, Items(j)) == Some(r)
    ensures r.constructor_ == j.constructor_ && r.fallback == j.fallback && r.receive == j.receive
  {
    SingleBack(j, r, Constructor);
    SingleBack(j, r, Fallback);
    SingleBack(j, r, Receive);
  }

  lemma GroupsBack(j: JsonAbi, r: JsonAbi)
    requires WellFormedAbi(j) && PlaceAll(EMPTY_ABI, Items(j)) == Some(r)
    ensures r.functions == M.NonEmpty(j.functions)
    ensures r.events == M.NonEmpty(j.events) && r.errors == M.NonEmpty(j.errors)
  {
    FunctionsBack(j, r);
    EventsBack(j, r);
    ErrorsBack(j, r);
  }

  lemma FunctionsBack(j: JsonAbi, r: JsonAbi)
    requires WellFormedAbi(j) && PlaceAll(EMPTY_ABI, Items(j)) == Some(r)
    ensures r.functions == M.NonEmpty(j.functions)
  {
    GroupBack(j, r, Function);
  }

  lemma EventsBack(j: JsonAbi, r: JsonAbi)
    requires WellFormedAbi(j) && PlaceAll(EMPTY_ABI, Items(j)) == Some(r)
    ensures r.events == M.NonEmpty(j.events)
  {
    GroupBack(j, r, Event);
  }

  lemma ErrorsBack(j: JsonAbi, r: JsonAbi)
    requires WellFormedAbi(j) && PlaceAll(EMPTY_ABI, Items(j)) == Some(r)
    ensures r.errors == M.NonEmpty(j.errors)
  {
    GroupBack(j, r, Error);
  }

  lemma SingleBack(j: JsonAbi, r: JsonAbi, kind: EntryType)
    requires WellFormedAbi(j) && PlaceAll(EMPTY_ABI, Items(j)) == Some(r) && Single(kind)
    ensures SingleOf(r, kind) == SingleOf(j, kind)
  {
    PlacingSingles(EMPTY_ABI, Items(j), kind);
    SelectOfItems(j, kind);
    assert OptSeq(SingleOf(r, kind)) == OptSeq(SingleOf(j, kind));
    assert SingleOf(j, kind).Some? ==> OptSeq(SingleOf(j, kind))[0] == SingleOf(j, kind).value;
    assert SingleOf(r, kind).Some? ==> OptSeq(SingleOf(r, kind))[0] == SingleOf(r, kind).value;
  }

  lemma GroupBack(j: JsonAbi, r: JsonAbi, kind: EntryType)
    requires WellFormedAbi(j) && PlaceAll(EMPTY_ABI, Items(j)) == Some(r) && Named(kind)
    ensures GroupsOf(r, kind) == M.NonEmpty(GroupsOf(j, kind))
  {
    PlacingGroups(EMPTY_ABI, Items(j), kind);
    SelectOfItems(j, kind);
    M.CollectUndoesFlatten(GroupsOf(j, kind), NameOf);
  }

  // ---- JSON to TRON to JSON ----

  function MapAbi(j: JsonAbi): JsonAbi
  {
    JsonAbi(MapOption(EraseItem, j.constructor_), MapOption(EraseItem, j.fallback), MapOption(EraseItem, j.receive),
            M.MapGroups(EraseItem, j.functions), M.MapGroups(EraseItem, j.events), M.MapGroups(EraseItem, j.errors))
  }

  lemma MapOptSeq(o: Option<JsonItem>)
    ensures M.MapSeq(EraseItem, OptSeq(o)) == OptSeq(MapOption(EraseItem, o))
  {
  }

  lemma ItemsOfMap(j: JsonAbi)
    ensures M.MapSeq(EraseItem, Items(j)) == Items(MapAbi(j))
  {
    var c, b, r := OptSeq(j.constructor_), OptSeq(j.fallback), OptSeq(j.receive);
    var x, y, z := M.Flatten(j.functions), M.Flatten(j.events), M.Flatten(j.errors);
    MapOptSeq(j.constructor_);
    MapOptSeq(j.fallback);
    MapOptSeq(j.receive);
    M.FlattenMap(EraseItem, j.functions);
    M.FlattenMap(EraseItem, j.events);
    M.FlattenMap(EraseItem, j.errors);
    M.MapSeqConcat(EraseItem, c, b);
    M.MapSeqConcat(EraseItem, c + b, r);
    M.MapSeqConcat(EraseItem, c + b + r, x);
    M.MapSeqConcat(EraseItem, c + b + r + x, y);
    M.MapSeqConcat(EraseItem, c + b + r + x + y, z);
  }

  lemma MapGroupOk(m: M.Groups<JsonItem>, kind: EntryType)
    requires GroupOk(m, kind)
    ensures GroupOk(M.MapGroups(EraseItem, m), kind)
  {
    M.FlattenMap(EraseItem, m);
    MapKeepsKind(M.Flatten(m), kind);
    MapKeepsNames(m);
  }

  lemma EraseKeepsLabels(item: JsonItem)
    ensures KindOf(EraseItem(item)) == KindOf(item) && NameOf(EraseItem(item)) == NameOf(item)
  {
  }

  lemma MapKeepsKind(items: seq<JsonItem>, kind: EntryType)
    requires AllOfKind(items, kind, KindOf)
    ensures AllOfKind(M.MapSeq(EraseItem, items), kind, KindOf)
  {
    forall k | 0 <= k < |items| ensures KindOf(EraseItem(items[k])) == kind {
      EraseKeepsLabels(items[k]);
    }
  }

  lemma MapKeepsNames(m: M.Groups<JsonItem>)
    requires M.WellFormed(m, NameOf)
    ensures M.WellFormed(M.MapGroups(EraseItem, m), NameOf)
  {
    var r := M.MapGroups(EraseItem, m);
    forall i, k | 0 <= i < |r| && 0 <= k < |r[i].items| ensures NameOf(r[i].items[k]) == r[i].name {
      EraseKeepsLabels(m[i].items[k]);
    }
  }

  lemma MapWellFormed(j: JsonAbi)
    requires WellFormedAbi(j)
    ensures WellFormedAbi(MapAbi(j))
  {
    MapGroupOk(j.functions, Function);
    MapGroupOk(j.events, Event);
    MapGroupOk(j.errors, Error);
  }

  /** JSON to TRON to JSON: whatever converts comes back as itself with component names,
      internal types and empty groups erased - nothing else is lost, and the overloads of a
      name keep their order. */
  lemma JsonRoundTrip(lib: Lib, j: JsonAbi)
    requires WellFormedAbi(j) && AllItemsReadBack(lib, Items(j)) && FromJson(lib, j).Ok?
    ensures ToJson(lib, FromJson(lib, j).value) == Ok(EraseAbi(j))
  {
    var es := FromJson(lib, j).value;
    ItemsThereAndBack(lib, Items(j));
    ItemsOfMap(j);
    MapWellFormed(j);
    PlacingWhatWasListed(MapAbi(j));
    ToJsonIsPlacing(lib, EMPTY_ABI, es);
  }

  // ---- When JSON converts at all ----

  predicate Convertible(lib: Lib, p: Param)
  {
    lib.ValidName(p.name, true) && !EmptyTuple(p) && lib.selectorType(p) != ""
  }

  ghost predicate AllConvertible(lib: Lib, ps: seq<Param>) { forall i :: 0 <= i < |ps| ==> Convertible(lib, ps[i]) }

  ghost predicate ItemConvertible(lib: Lib, item: JsonItem)
  {
    && (Named(KindOf(item)) ==> lib.validIdentifier(NameOf(item)))
    && match item
       case ConstructorItem(inputs, _) => AllConvertible(lib, inputs)
       case FunctionItem(_, inputs, outputs, _) => AllConvertible(lib, inputs) && AllConvertible(lib, outputs)
       case EventItem(_, params, _) => forall i :: 0 <= i < |params| ==> Convertible(lib, params[i].param)
       case ErrorItem(_, inputs) => AllConvertible(lib, inputs)
       case _ => true
  }

  lemma {:induction false} ParamsConvert(lib: Lib, ps: seq<Param>)
    ensures ParamsFromJson(lib, ps).Ok? <==> AllConvertible(lib, ps)
  {
    if ps != [] {
      ParamsConvert(lib, ps[1..]);
      assert AllConvertible(lib, ps) <==> Convertible(lib, ps[0]) && AllConvertible(lib, ps[1..]) by {
        assert forall i :: 0 <= i < |ps[1..]| ==> ps[1..][i] == ps[i + 1];
        assert forall i :: 0 < i < |ps| ==> ps[i] == ps[1..][i - 1];
      }
    }
  }

  lemma {:induction false} EventParamsConvert(lib: Lib, ps: seq<EventParam>)
    ensures EventParamsFromJson(lib, ps).Ok? <==> forall i :: 0 <= i < |ps| ==> Convertible(lib, ps[i].param)
  {
    if ps != [] {
      EventParamsConvert(lib, ps[1..]);
      assert forall i :: 0 <= i < |ps[1..]| ==> ps[1..][i] == ps[i + 1];
      assert forall i :: 0 < i < |ps| ==> ps[i] == ps[1..][i - 1];
    }
  }

  lemma ItemConverts(lib: Lib, item: JsonItem)
    ensures EntryOf(lib, item).Ok? <==> ItemConvertible(lib, item)
  {
    match item
    case ConstructorItem(inputs, _) => ParamsConvert(lib, inputs);
    case FunctionItem(_, inputs, outputs, _) =>
      ParamsConvert(lib, inputs);
      ParamsConvert(lib, outputs);
    case EventItem(_, params, _) => EventParamsConvert(lib, params);
    case ErrorItem(_, inputs) => ParamsConvert(lib, inputs);
    case _ =>
  }

  /** `EntriesOf` as a map, where it succeeds. */
  function ToEntry(lib: Lib, item: JsonItem): Entry
  {
    match EntryOf(lib, item)
    case Ok(e) => e
    case Err(_) => MakeEntry(KindOf(item), NameOf(item), [], [], TronUnknown(0), false)
  }

  function EntryMap(lib: Lib): JsonItem -> Entry { (item: JsonItem) => ToEntry(lib, item) }

  /** An ABI converts exactly when each of its items does. */
  lemma {:induction false} ItemsConvert(lib: Lib, items: seq<JsonItem>)
    ensures EntriesOf(lib, items).Ok? <==> forall i :: 0 <= i < |items| ==> ItemConvertible(lib, items[i])
    ensures EntriesOf(lib, items).Ok? ==> EntriesOf(lib, items).value == M.MapSeq(EntryMap(lib), items)
  {
    if items != [] {
      ItemConverts(lib, items[0]);
      ItemsConvert(lib, items[1..]);
      assert forall i :: 0 <= i < |items[1..]| ==> items[1..][i] == items[i + 1];
      assert forall i :: 0 < i < |items| ==> items[i] == items[1..][i - 1];
    }
  }
}
