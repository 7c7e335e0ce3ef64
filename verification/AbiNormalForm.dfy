/** TRON metadata to JSON and back: the entries in normal form, stably regrouped
    (crates/abi/src/alloy.rs). */
module AbiNormalForm {
  import opened Wrappers
  import opened AbiTypes
  import opened AbiGrouping
  import opened TronAbi
  import opened AbiRoundTrip
  import M = SortedMap

  // ---- The normal form, entry by entry ----

  function Parsed(lib: Lib, p: TronParam): Option<Param> { lib.parseParam(Declaration(p.ty, p.name)) }

  /** The same parameter with its type in canonical spelling. */
  function Canonical(lib: Lib, p: TronParam, indexed: bool): TronParam
  {
    TronParam(indexed, p.name, match Parsed(lib, p) case Some(q) => lib.selectorType(q) case None => p.ty)
  }

  function CanonicalPlain(lib: Lib): TronParam -> TronParam { (p: TronParam) => Canonical(lib, p, false) }

  function CanonicalIndexed(lib: Lib): TronParam -> TronParam { (p: TronParam) => Canonical(lib, p, p.indexed) }

  /** The mutability the entry stands for; the legacy flags speak only where it is unset. */
  function Settled(e: Entry): TronState
  {
    if e.state != TronUnknown(0) then e.state
    else if e.payable || e.kind.Receive? then TronPayable
    else if e.constant then TronView
    else TronNonPayable
  }

  predicate HasParams(kind: EntryType) { kind.Constructor? || Named(kind) }

  /** Each entry keeps the fields of its kind, canonical, and the flags its mutability implies. */
  function Norm(lib: Lib, e: Entry): Entry
  {
    var state := if e.kind.Event? || e.kind.Error? then TronUnknown(0) else Settled(e);
    Entry(
      e.kind,
      if Named(e.kind) then e.name else "",
      if e.kind.Event? then M.MapSeq(CanonicalIndexed(lib), e.inputs)
      else if HasParams(e.kind) then M.MapSeq(CanonicalPlain(lib), e.inputs) else [],
      if e.kind.Function? then M.MapSeq(CanonicalPlain(lib), e.outputs) else [],
      e.kind.Event? && e.anonymous,
      state == TronPure || state == TronView,
      state == TronPayable,
      state)
  }

  function NormMap(lib: Lib): Entry -> Entry { (e: Entry) => Norm(lib, e) }

  function EntryKind(e: Entry): EntryType { e.kind }

  function EntryName(e: Entry): string { if Named(e.kind) then e.name else "" }

  /** What the round trip leaves of a list of entries. */
  function NormalForm(lib: Lib, es: seq<Entry>): seq<Entry>
  {
    Regroup(M.MapSeq(NormMap(lib), es), EntryKind, EntryName)
  }

  // ---- What the parser promises ----

  /** A parsed parameter carries the declared name and nothing TRON metadata lacks, and unless
      it is the empty tuple it has a selector type that reads back as itself. */
  predicate ParsesLawfully(lib: Lib, p: TronParam)
  {
    match Parsed(lib, p)
    case None => true
    case Some(q) =>
      && q.name == p.name
      && Erase(q) == q
      && (EmptyTuple(q) || (lib.selectorType(q) != "" && ReadsBack(lib, q)))
  }

  predicate ParsesAsEmptyTuple(lib: Lib, p: TronParam)
  {
    match Parsed(lib, p)
    case None => false
    case Some(q) => EmptyTuple(q)
  }

  /** The parameters a conversion looks at. */
  function Retained(e: Entry): seq<TronParam>
  {
    (if HasParams(e.kind) then e.inputs else []) + (if e.kind.Function? then e.outputs else [])
  }

  ghost predicate Lawful(lib: Lib, e: Entry)
  {
    forall i :: 0 <= i < |Retained(e)| ==> ParsesLawfully(lib, Retained(e)[i])
  }

  ghost predicate NoEmptyTuple(lib: Lib, e: Entry)
  {
    forall i :: 0 <= i < |Retained(e)| ==> !ParsesAsEmptyTuple(lib, Retained(e)[i])
  }

  ghost predicate AllLawful(lib: Lib, ps: seq<TronParam>) { forall i :: 0 <= i < |ps| ==> ParsesLawfully(lib, ps[i]) }

  ghost predicate NoneEmpty(lib: Lib, ps: seq<TronParam>)
  {
    forall i :: 0 <= i < |ps| ==> !ParsesAsEmptyTuple(lib, ps[i])
  }

  // ---- Parameters there and back ----

  lemma ParamBack(lib: Lib, p: TronParam)
    requires ParsesLawfully(lib, p) && ParamToJson(lib, p).Ok?
    ensures Convertible(lib, ParamToJson(lib, p).value) <==> !ParsesAsEmptyTuple(lib, p)
    ensures !ParsesAsEmptyTuple(lib, p) ==>
      ParamFromJson(lib, ParamToJson(lib, p).value) == Ok(Canonical(lib, p, false))
    ensures !ParsesAsEmptyTuple(lib, p) ==> ReadsBack(lib, ParamToJson(lib, p).value)
    ensures Erase(ParamToJson(lib, p).value) == ParamToJson(lib, p).value
  {
  }

  lemma Uncons<T>(s: seq<T>)
    requires s != []
    ensures forall i :: 0 <= i < |s[1..]| ==> s[1..][i] == s[i + 1]
    ensures forall i :: 0 < i < |s| ==> s[i] == s[1..][i - 1]
  {
  }

  lemma NoneEmptyCons(lib: Lib, ps: seq<TronParam>)
    requires ps != []
    ensures NoneEmpty(lib, ps) <==> !ParsesAsEmptyTuple(lib, ps[0]) && NoneEmpty(lib, ps[1..])
  {
    Uncons(ps);
  }

  lemma {:induction false} ParamsBack(lib: Lib, ps: seq<TronParam>)
    requires AllLawful(lib, ps) && ParamsToJson(lib, ps).Ok?
    ensures ParamsFromJson(lib, ParamsToJson(lib, ps).value).Ok? <==> NoneEmpty(lib, ps)
    ensures NoneEmpty(lib, ps) ==>
      ParamsFromJson(lib, ParamsToJson(lib, ps).value) == Ok(M.MapSeq(CanonicalPlain(lib), ps))
  {
    if ps != [] {
      NoneEmptyCons(lib, ps);
      ParamBack(lib, ps[0]);
      assert AllLawful(lib, ps[1..]);
      ParamsBack(lib, ps[1..]);
      assert ParamsToJson(lib, ps).value[1..] == ParamsToJson(lib, ps[1..]).value;
    }
  }

  lemma {:induction false} EventParamsBack(lib: Lib, ps: seq<TronParam>)
    requires AllLawful(lib, ps) && EventParamsToJson(lib, ps).Ok?
    ensures EventParamsFromJson(lib, EventParamsToJson(lib, ps).value).Ok? <==> NoneEmpty(lib, ps)
    ensures NoneEmpty(lib, ps) ==>
      EventParamsFromJson(lib, EventParamsToJson(lib, ps).value) == Ok(M.MapSeq(CanonicalIndexed(lib), ps))
  {
    if ps != [] {
      NoneEmptyCons(lib, ps);
      ParamBack(lib, ps[0]);
      assert AllLawful(lib, ps[1..]);
      EventParamsBack(lib, ps[1..]);
      assert EventParamsToJson(lib, ps).value[1..] == EventParamsToJson(lib, ps[1..]).value;
    }
  }

  // ---- One entry there and back ----

  lemma StateBack(e: Entry, receive: bool)
    requires StateToJson(e.state, e.constant, e.payable, receive).Ok? && receive == e.kind.Receive?
    ensures StateFromJson(StateToJson(e.state, e.constant, e.payable, receive).value) == Settled(e)
  {
  }

  lemma RetainedParts(lib: Lib, e: Entry)
    requires HasParams(e.kind)
    ensures Lawful(lib, e) ==> AllLawful(lib, e.inputs)
    ensures !e.kind.Function? ==> (NoEmptyTuple(lib, e) <==> NoneEmpty(lib, e.inputs))
    ensures Lawful(lib, e) && e.kind.Function? ==> AllLawful(lib, e.outputs)
    ensures e.kind.Function? ==> (NoEmptyTuple(lib, e) <==> NoneEmpty(lib, e.inputs) && NoneEmpty(lib, e.outputs))
  {
    var r := Retained(e);
    assert forall i :: 0 <= i < |e.inputs| ==> r[i] == e.inputs[i];
    if e.kind.Function? {
      assert forall i :: 0 <= i < |e.outputs| ==> r[|e.inputs| + i] == e.outputs[i];
      assert forall i :: |e.inputs| <= i < |r| ==> r[i] == e.outputs[i - |e.inputs|];
    }
  }

  /** An entry that converts to JSON comes back exactly when it holds no empty tuple, and then
      it comes back in normal form. */
  lemma EntryBack(lib: Lib, e: Entry)
    requires Lawful(lib, e) && ItemOf(lib, e).Ok?
    ensures EntryOf(lib, ItemOf(lib, e).value).Ok? <==> NoEmptyTuple(lib, e)
    ensures NoEmptyTuple(lib, e) ==> EntryOf(lib, ItemOf(lib, e).value) == Ok(Norm(lib, e))
  {
    match e.kind
    case Function => FunctionBack(lib, e);
    case Constructor => ConstructorBack(lib, e);
    case Event => EventBack(lib, e);
    case Error => ErrorBack(lib, e);
    case _ => StateBack(e, e.kind.Receive?);
  }

  lemma EventBack(lib: Lib, e: Entry)
    requires Lawful(lib, e) && ItemOf(lib, e).Ok? && e.kind == Event
    ensures EntryOf(lib, ItemOf(lib, e).value).Ok? <==> NoEmptyTuple(lib, e)
    ensures NoEmptyTuple(lib, e) ==> EntryOf(lib, ItemOf(lib, e).value) == Ok(Norm(lib, e))
  {
    RetainedParts(lib, e);
    EventParamsBack(lib, e.inputs);
    var params := EventParamsToJson(lib, e.inputs).value;
    assert ItemOf(lib, e).value == EventItem(e.name, params, e.anonymous);
    if NoEmptyTuple(lib, e) {
      assert EventParamsFromJson(lib, params).value == Norm(lib, e).inputs;
    }
  }

  lemma ErrorBack(lib: Lib, e: Entry)
    requires Lawful(lib, e) && ItemOf(lib, e).Ok? && e.kind == Error
    ensures EntryOf(lib, ItemOf(lib, e).value).Ok? <==> NoEmptyTuple(lib, e)
    ensures NoEmptyTuple(lib, e) ==> EntryOf(lib, ItemOf(lib, e).value) == Ok(Norm(lib, e))
  {
    RetainedParts(lib, e);
    ParamsBack(lib, e.inputs);
  }

  lemma FunctionBack(lib: Lib, e: Entry)
    requires Lawful(lib, e) && ItemOf(lib, e).Ok? && e.kind == Function
    ensures EntryOf(lib, ItemOf(lib, e).value).Ok? <==> NoEmptyTuple(lib, e)
    ensures NoEmptyTuple(lib, e) ==> EntryOf(lib, ItemOf(lib, e).value) == Ok(Norm(lib, e))
  {
    RetainedParts(lib, e);
    ParamsBack(lib, e.inputs);
    ParamsBack(lib, e.outputs);
    StateBack(e, false);
  }

  lemma ConstructorBack(lib: Lib, e: Entry)
    requires Lawful(lib, e) && ItemOf(lib, e).Ok? && e.kind == Constructor
    ensures EntryOf(lib, ItemOf(lib, e).value).Ok? <==> NoEmptyTuple(lib, e)
    ensures NoEmptyTuple(lib, e) ==> EntryOf(lib, ItemOf(lib, e).value) == Ok(Norm(lib, e))
  {
    RetainedParts(lib, e);
    ParamsBack(lib, e.inputs);
    StateBack(e, false);
  }

  lemma {:induction false} ItemsOfAt(lib: Lib, es: seq<Entry>)
    requires ItemsOf(lib, es).Ok?
    ensures |ItemsOf(lib, es).value| == |es|
    ensures forall i :: 0 <= i < |es| ==> ItemOf(lib, es[i]) == Ok(ItemsOf(lib, es).value[i])
  {
    if es != [] {
      ItemsOfAt(lib, es[1..]);
      Uncons(es);
      Uncons(ItemsOf(lib, es).value);
    }
  }

  // ---- The whole list ----

  /** Entries reach JSON exactly when each of them converts and no singleton comes twice. */
  lemma ToJsonSucceeds(lib: Lib, es: seq<Entry>)
    ensures ToJson(lib, es).Ok? <==>
      && (forall i :: 0 <= i < |es| ==> ItemOf(lib, es[i]).Ok?)
      && |Select(es, Constructor, EntryKind)| <= 1 && |Select(es, Fallback, EntryKind)| <= 1
      && |Select(es, Receive, EntryKind)| <= 1
  {
    ToJsonIsPlacing(lib, EMPTY_ABI, es);
    AllItemsConvert(lib, es);
    if ItemsOf(lib, es).Ok? {
      PlacingSucceeds(EMPTY_ABI, ItemsOf(lib, es).value);
      SameCount(lib, es, Constructor);
      SameCount(lib, es, Fallback);
      SameCount(lib, es, Receive);
    }
  }

  lemma {:induction false} AllItemsConvert(lib: Lib, es: seq<Entry>)
    ensures ItemsOf(lib, es).Ok? <==> forall i :: 0 <= i < |es| ==> ItemOf(lib, es[i]).Ok?
  {
    if es != [] {
      AllItemsConvert(lib, es[1..]);
      Uncons(es);
    }
  }

  lemma {:induction false} SameCount(lib: Lib, es: seq<Entry>, kind: EntryType)
    requires ItemsOf(lib, es).Ok?
    ensures |Select(ItemsOf(lib, es).value, kind, KindOf)| == |Select(es, kind, EntryKind)|
  {
    if es != [] {
      SameCount(lib, es[1..], kind);
      ItemKeepsKindAndName(lib, es[0]);
      assert ItemsOf(lib, es).value[1..] == ItemsOf(lib, es[1..]).value;
    }
  }

  /** What a successful conversion to JSON holds: the items of the entries, regrouped. */
  lemma ItemsOfToJson(lib: Lib, es: seq<Entry>)
    requires ToJson(lib, es).Ok?
    ensures ItemsOf(lib, es).Ok?
    ensures Items(ToJson(lib, es).value) == Regroup(ItemsOf(lib, es).value, KindOf, NameOf)
  {
    ToJsonIsPlacing(lib, EMPTY_ABI, es);
    ItemsOfPlaced(ItemsOf(lib, es).value, ToJson(lib, es).value);
  }

  lemma ItemsOfPlaced(items: seq<JsonItem>, j: JsonAbi)
    requires PlaceAll(EMPTY_ABI, items) == Some(j)
    ensures Items(j) == Regroup(items, KindOf, NameOf)
  {
    SlotAfter(items, j, Constructor);
    SlotAfter(items, j, Fallback);
    SlotAfter(items, j, Receive);
    PlacingGroups(EMPTY_ABI, items, Function);
    PlacingGroups(EMPTY_ABI, items, Event);
    PlacingGroups(EMPTY_ABI, items, Error);
  }

  lemma SlotAfter(items: seq<JsonItem>, j: JsonAbi, kind: EntryType)
    requires PlaceAll(EMPTY_ABI, items) == Some(j) && Single(kind)
    ensures OptSeq(SingleOf(j, kind)) == Select(items, kind, KindOf)
  {
    PlacingSingles(EMPTY_ABI, items, kind);
    assert OptSeq(SingleOf(EMPTY_ABI, kind)) + Select(items, kind, KindOf) == Select(items, kind, KindOf);
  }

  lemma ToEntryKeepsLabels(lib: Lib, item: JsonItem)
    ensures EntryKind(ToEntry(lib, item)) == KindOf(item) && EntryName(ToEntry(lib, item)) == NameOf(item)
  {
  }

  lemma KindsKnown(lib: Lib, es: seq<Entry>)
    requires ItemsOf(lib, es).Ok?
    ensures forall k :: 0 <= k < |ItemsOf(lib, es).value| ==> !KindOf(ItemsOf(lib, es).value[k]).Unknown?
  {
  }

  lemma SameMembers<T>(a: seq<T>, b: seq<T>)
    requires multiset(a) == multiset(b)
    ensures forall x :: x in a <==> x in b
  {
    forall x ensures x in a <==> x in b {
      assert x in a <==> x in multiset(a);
      assert x in b <==> x in multiset(b);
    }
  }

  ghost predicate AllItems(lib: Lib, items: seq<JsonItem>)
  {
    forall i :: 0 <= i < |items| ==> ItemConvertible(lib, items[i])
  }

  lemma AllItemsMembers(lib: Lib, a: seq<JsonItem>, b: seq<JsonItem>)
    requires AllItems(lib, a) && forall x :: x in b ==> x in a
    ensures AllItems(lib, b)
  {
    forall i | 0 <= i < |b| ensures ItemConvertible(lib, b[i]) {
      assert b[i] in a;
    }
  }

  lemma ItemConvertsBack(lib: Lib, e: Entry, item: JsonItem)
    requires Lawful(lib, e) && ItemOf(lib, e) == Ok(item)
    ensures ItemConvertible(lib, item) <==> NoEmptyTuple(lib, e)
  {
    EntryBack(lib, e);
    ItemConverts(lib, item);
  }

  lemma {:induction false} ItemsConvertBack(lib: Lib, es: seq<Entry>)
    requires ItemsOf(lib, es).Ok? && forall i :: 0 <= i < |es| ==> Lawful(lib, es[i])
    ensures AllItems(lib, ItemsOf(lib, es).value) <==> forall i :: 0 <= i < |es| ==> NoEmptyTuple(lib, es[i])
  {
    ItemsOfAt(lib, es);
    var items := ItemsOf(lib, es).value;
    forall i | 0 <= i < |es| ensures ItemConvertible(lib, items[i]) <==> NoEmptyTuple(lib, es[i]) {
      ItemConvertsBack(lib, es[i], items[i]);
    }
  }

  /** The regrouped items convert exactly when the entries hold no empty tuple. */
  lemma ConvertsBack(lib: Lib, es: seq<Entry>)
    requires ToJson(lib, es).Ok? && forall i :: 0 <= i < |es| ==> Lawful(lib, es[i])
    ensures FromJson(lib, ToJson(lib, es).value).Ok? <==> forall i :: 0 <= i < |es| ==> NoEmptyTuple(lib, es[i])
  {
    ItemsOfToJson(lib, es);
    ItemsConvertBack(lib, es);
    var items := ItemsOf(lib, es).value;
    var back := Regroup(items, KindOf, NameOf);
    RegroupConvertible(lib, es, items, back);
    ItemsConvert(lib, back);
    assert AllItems(lib, back) <==> EntriesOf(lib, back).Ok?;
  }

  lemma RegroupConvertible(lib: Lib, es: seq<Entry>, items: seq<JsonItem>, back: seq<JsonItem>)
    requires ItemsOf(lib, es) == Ok(items) && back == Regroup(items, KindOf, NameOf)
    ensures AllItems(lib, back) <==> AllItems(lib, items)
  {
    KindsKnown(lib, es);
    RegroupKeepsItems(items, KindOf, NameOf);
    SameMembers(items, back);
    if AllItems(lib, items) {
      AllItemsMembers(lib, items, back);
    }
    if AllItems(lib, back) {
      AllItemsMembers(lib, back, items);
    }
  }

  lemma NormBySteps(lib: Lib, es: seq<Entry>)
    requires ItemsOf(lib, es).Ok? && forall i :: 0 <= i < |es| ==> Lawful(lib, es[i]) && NoEmptyTuple(lib, es[i])
    ensures M.MapSeq(EntryMap(lib), ItemsOf(lib, es).value) == M.MapSeq(NormMap(lib), es)
  {
    ItemsOfAt(lib, es);
    var items := ItemsOf(lib, es).value;
    forall i | 0 <= i < |es| ensures ToEntry(lib, items[i]) == Norm(lib, es[i]) {
      EntryBack(lib, es[i]);
    }
  }

  /** TRON to JSON to TRON: entries that reach JSON come back exactly when none of the
      parameters they keep is an empty tuple, and then they come back as their normal forms,
      stably regrouped. */
  lemma TronRoundTrip(lib: Lib, es: seq<Entry>)
    requires ToJson(lib, es).Ok? && forall i :: 0 <= i < |es| ==> Lawful(lib, es[i])
    ensures FromJson(lib, ToJson(lib, es).value).Ok? <==> forall i :: 0 <= i < |es| ==> NoEmptyTuple(lib, es[i])
    ensures FromJson(lib, ToJson(lib, es).value).Ok? ==>
      FromJson(lib, ToJson(lib, es).value).value == NormalForm(lib, es)
  {
    ConvertsBack(lib, es);
    if FromJson(lib, ToJson(lib, es).value).Ok? {
      ItemsOfToJson(lib, es);
      var items := ItemsOf(lib, es).value;
      ItemsConvert(lib, Regroup(items, KindOf, NameOf));
      NormBySteps(lib, es);
      forall k | 0 <= k < |items|
        ensures EntryKind(ToEntry(lib, items[k])) == KindOf(items[k])
        ensures EntryName(ToEntry(lib, items[k])) == NameOf(items[k])
      {
        ToEntryKeepsLabels(lib, items[k]);
      }
      RegroupMap(EntryMap(lib), items, KindOf, NameOf, EntryKind, EntryName);
    }
  }

  // ---- What the normal form keeps ----

  /** The normal form holds the normalised entries and no others, kinds in order; within a
      kind names are in order and the overloads of a name keep theirs. */
  lemma NormalFormConserves(lib: Lib, es: seq<Entry>, kind: EntryType, name: string)
    requires forall i :: 0 <= i < |es| ==> !es[i].kind.Unknown?
    requires Named(kind)
    ensures multiset(NormalForm(lib, es)) == multiset(M.MapSeq(NormMap(lib), es))
    ensures KindsInOrder(NormalForm(lib, es), EntryKind)
    ensures M.InNameOrder(Select(NormalForm(lib, es), kind, EntryKind), EntryName)
    ensures M.Named(Select(NormalForm(lib, es), kind, EntryKind), name, EntryName)
         == M.MapSeq(NormMap(lib), M.Named(Select(es, kind, EntryKind), name, EntryName))
  {
    var ns := M.MapSeq(NormMap(lib), es);
    RegroupKeepsItems(ns, EntryKind, EntryName);
    RegroupOrdersKinds(ns, EntryKind, EntryName);
    RegroupSortsNames(ns, kind, name, EntryKind, EntryName);
    SelectMap(NormMap(lib), es, kind, EntryKind, EntryKind);
    NamedMap(lib, Select(es, kind, EntryKind), name);
  }

  lemma {:induction false} NamedMap(lib: Lib, es: seq<Entry>, name: string)
    ensures M.Named(M.MapSeq(NormMap(lib), es), name, EntryName) == M.MapSeq(NormMap(lib), M.Named(es, name, EntryName))
  {
    if es != [] {
      NamedMap(lib, es[1..], name);
      assert M.MapSeq(NormMap(lib), es)[1..] == M.MapSeq(NormMap(lib), es[1..]);
      var head := if EntryName(es[0]) == name then [es[0]] else [];
      M.MapSeqConcat(NormMap(lib), head, M.Named(es[1..], name, EntryName));
    }
  }

  // ---- The normal form is final ----

  lemma ToJsonIsWellFormed(lib: Lib, es: seq<Entry>)
    requires ToJson(lib, es).Ok?
    ensures WellFormedAbi(ToJson(lib, es).value)
    ensures var j := ToJson(lib, es).value; M.Full(j.functions) && M.Full(j.events) && M.Full(j.errors)
  {
    ToJsonIsPlacing(lib, EMPTY_ABI, es);
    var items, j := ItemsOf(lib, es).value, ToJson(lib, es).value;
    SlotKind(items, j, Constructor);
    SlotKind(items, j, Fallback);
    SlotKind(items, j, Receive);
    GroupsAfter(items, j, Function);
    GroupsAfter(items, j, Event);
    GroupsAfter(items, j, Error);
  }

  lemma SlotKind(items: seq<JsonItem>, j: JsonAbi, kind: EntryType)
    requires PlaceAll(EMPTY_ABI, items) == Some(j) && Single(kind)
    ensures SingleOk(SingleOf(j, kind), kind)
  {
    SlotAfter(items, j, kind);
    SelectKind(items, kind, KindOf);
    assert SingleOf(j, kind).Some? ==> OptSeq(SingleOf(j, kind))[0] == SingleOf(j, kind).value;
  }

  lemma GroupsAfter(items: seq<JsonItem>, j: JsonAbi, kind: EntryType)
    requires PlaceAll(EMPTY_ABI, items) == Some(j) && Named(kind)
    ensures GroupOk(GroupsOf(j, kind), kind) && M.Full(GroupsOf(j, kind))
  {
    PlacingGroups(EMPTY_ABI, items, kind);
    M.CollectKeeps([], Select(items, kind, KindOf), NameOf);
    StableSelect(items, kind, KindOf, NameOf);
  }

  ghost predicate Bare(lib: Lib, item: JsonItem) { EraseItem(item) == item && ItemReadsBack(lib, item) }

  lemma {:induction false} ParamsBare(lib: Lib, ps: seq<TronParam>)
    requires AllLawful(lib, ps) && NoneEmpty(lib, ps) && ParamsToJson(lib, ps).Ok?
    ensures EraseParams(ParamsToJson(lib, ps).value) == ParamsToJson(lib, ps).value
    ensures AllReadBack(lib, ParamsToJson(lib, ps).value)
  {
    if ps != [] {
      NoneEmptyCons(lib, ps);
      ParamBack(lib, ps[0]);
      assert AllLawful(lib, ps[1..]);
      ParamsBare(lib, ps[1..]);
      var qs := ParamsToJson(lib, ps).value;
      Uncons(qs);
      assert qs[1..] == ParamsToJson(lib, ps[1..]).value;
    }
  }

  lemma {:induction false} EventParamsBare(lib: Lib, ps: seq<TronParam>)
    requires AllLawful(lib, ps) && NoneEmpty(lib, ps) && EventParamsToJson(lib, ps).Ok?
    ensures M.MapSeq(EraseEventParam, EventParamsToJson(lib, ps).value) == EventParamsToJson(lib, ps).value
    ensures var qs := EventParamsToJson(lib, ps).value; forall i :: 0 <= i < |qs| ==> ReadsBack(lib, qs[i].param)
  {
    if ps != [] {
      NoneEmptyCons(lib, ps);
      ParamBack(lib, ps[0]);
      assert AllLawful(lib, ps[1..]);
      EventParamsBare(lib, ps[1..]);
      var qs := EventParamsToJson(lib, ps).value;
      Uncons(qs);
      assert qs[1..] == EventParamsToJson(lib, ps[1..]).value;
    }
  }

  lemma ItemBare(lib: Lib, e: Entry)
    requires Lawful(lib, e) && NoEmptyTuple(lib, e) && ItemOf(lib, e).Ok?
    ensures Bare(lib, ItemOf(lib, e).value)
  {
    if HasParams(e.kind) {
      RetainedParts(lib, e);
    }
    match e.kind
    case Constructor => ParamsBare(lib, e.inputs);
    case Function =>
      ParamsBare(lib, e.inputs);
      ParamsBare(lib, e.outputs);
    case Event => EventParamsBare(lib, e.inputs);
    case Error => ParamsBare(lib, e.inputs);
    case _ =>
  }

  ghost predicate AllBare(lib: Lib, items: seq<JsonItem>) { forall i :: 0 <= i < |items| ==> Bare(lib, items[i]) }

  lemma {:induction false} MapBare(lib: Lib, items: seq<JsonItem>)
    requires AllBare(lib, items)
    ensures M.MapSeq(EraseItem, items) == items && AllItemsReadBack(lib, items)
  {
  }

  lemma ItemsBare(lib: Lib, es: seq<Entry>)
    requires ToJson(lib, es).Ok? && forall i :: 0 <= i < |es| ==> Lawful(lib, es[i]) && NoEmptyTuple(lib, es[i])
    ensures AllBare(lib, Items(ToJson(lib, es).value))
  {
    ItemsOfToJson(lib, es);
    ItemsOfAt(lib, es);
    var items := ItemsOf(lib, es).value;
    forall i | 0 <= i < |items| ensures Bare(lib, items[i]) {
      ItemBare(lib, es[i]);
    }
    KindsKnown(lib, es);
    RegroupBare(lib, items);
  }

  lemma RegroupBare(lib: Lib, items: seq<JsonItem>)
    requires AllBare(lib, items) && forall k :: 0 <= k < |items| ==> !KindOf(items[k]).Unknown?
    ensures AllBare(lib, Regroup(items, KindOf, NameOf))
  {
    var back := Regroup(items, KindOf, NameOf);
    RegroupKeepsItems(items, KindOf, NameOf);
    SameMembers(items, back);
    assert forall i :: 0 <= i < |back| ==> back[i] in items;
  }

  lemma {:induction false} GroupsBare(lib: Lib, m: M.Groups<JsonItem>)
    requires AllBare(lib, M.Flatten(m)) && M.Full(m)
    ensures EraseGroups(m) == m
  {
    M.FullIsNonEmpty(m);
    M.NonEmptyMap(EraseItem, m);
    MapGroupsBare(lib, m);
  }

  lemma {:induction false} MapGroupsBare(lib: Lib, m: M.Groups<JsonItem>)
    requires AllBare(lib, M.Flatten(m))
    ensures M.MapGroups(EraseItem, m) == m
  {
    if m != [] {
      var all := M.Flatten(m);
      AllBareParts(lib, m[0].items, M.Flatten(m[1..]));
      MapBare(lib, m[0].items);
      MapGroupsBare(lib, m[1..]);
    }
  }

  lemma AllBareParts(lib: Lib, a: seq<JsonItem>, b: seq<JsonItem>)
    requires AllBare(lib, a + b)
    ensures AllBare(lib, a) && AllBare(lib, b)
  {
    assert forall i :: 0 <= i < |a| ==> (a + b)[i] == a[i];
    assert forall i :: 0 <= i < |b| ==> (a + b)[|a| + i] == b[i];
  }

  lemma AbiBare(lib: Lib, j: JsonAbi)
    requires AllBare(lib, Items(j)) && M.Full(j.functions) && M.Full(j.events) && M.Full(j.errors)
    ensures EraseAbi(j) == j
  {
    var c, b, r := OptSeq(j.constructor_), OptSeq(j.fallback), OptSeq(j.receive);
    var x, y, z := M.Flatten(j.functions), M.Flatten(j.events), M.Flatten(j.errors);
    AllBareParts(lib, c + b + r + x + y, z);
    AllBareParts(lib, c + b + r + x, y);
    AllBareParts(lib, c + b + r, x);
    AllBareParts(lib, c + b, r);
    AllBareParts(lib, c, b);
    OptBare(lib, j.constructor_);
    OptBare(lib, j.fallback);
    OptBare(lib, j.receive);
    GroupsBare(lib, j.functions);
    GroupsBare(lib, j.events);
    GroupsBare(lib, j.errors);
  }

  lemma OptBare(lib: Lib, o: Option<JsonItem>)
    requires AllBare(lib, OptSeq(o))
    ensures MapOption(EraseItem, o) == o
  {
    assert o.Some? ==> OptSeq(o)[0] == o.value;
  }

  /** A second round trip changes nothing: what came back once gives the same JSON again, and
      so comes back as it is. */
  lemma SecondTripChangesNothing(lib: Lib, es: seq<Entry>)
    requires ToJson(lib, es).Ok? && FromJson(lib, ToJson(lib, es).value).Ok?
    requires forall i :: 0 <= i < |es| ==> Lawful(lib, es[i])
    ensures ToJson(lib, FromJson(lib, ToJson(lib, es).value).value) == ToJson(lib, es)
  {
    var j := ToJson(lib, es).value;
    ConvertsBack(lib, es);
    ItemsBare(lib, es);
    MapBare(lib, Items(j));
    ToJsonIsWellFormed(lib, es);
    AbiBare(lib, j);
    JsonRoundTrip(lib, j);
  }
}
